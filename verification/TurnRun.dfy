/** The round robin follows the order of turns: every state of a run is a place in that order. */
module TurnRun {
  import opened Sums
  import opened Policies
  import opened RoundRobin
  import opened TurnOrder

  /** The sorted list, the room of each entry when the round robin starts, and each entry's position
      in the policy list. */
  datatype Order = Order(list: seq<SchedulePolicy>, rooms: seq<int>, at: seq<nat>)

  ghost predicate Valid(policies: seq<SchedulePolicy>, o: Order) {
    && |o.list| == |o.rooms| == |o.at|
    && (forall i :: 0 <= i < |o.rooms| ==> o.rooms[i] >= 0)
    && (forall i :: 0 <= i < |o.at| ==> o.at[i] < |policies|)
    && (forall i, j :: 0 <= i < |o.at| && 0 <= j < |policies| ==> (Matches(policies[j], o.list[i]) <==> j == o.at[i]))
    && (forall i, j :: 0 <= i < |o.at| && 0 <= j < |o.at| && o.at[i] == o.at[j] ==> i == j)
  }

  /** The entries with room for at least c. */
  function Above(list: seq<SchedulePolicy>, rooms: seq<int>, c: int): seq<SchedulePolicy>
    requires |list| == |rooms|
  {
    if list == [] then []
    else (if rooms[0] >= c then [list[0]] else []) + Above(list[1..], rooms[1..], c)
  }

  lemma {:induction false} AboveAppend(a: seq<SchedulePolicy>, ra: seq<int>, b: seq<SchedulePolicy>, rb: seq<int>,
                                       c: int)
    requires |a| == |ra| && |b| == |rb|
    ensures Above(a + b, ra + rb, c) == Above(a, ra, c) + Above(b, rb, c)
  {
    if a == [] {
      assert a + b == b && ra + rb == rb;
    } else {
      AboveAppend(a[1..], ra[1..], b, rb, c);
      AboveHead(a, ra, b, rb, c);
      Associates(if ra[0] >= c then [a[0]] else [], Above(a[1..], ra[1..], c), Above(b, rb, c));
    }
  }

  lemma AboveHead(a: seq<SchedulePolicy>, ra: seq<int>, b: seq<SchedulePolicy>, rb: seq<int>, c: int)
    requires |a| == |ra| > 0 && |b| == |rb|
    ensures Above(a + b, ra + rb, c) == (if ra[0] >= c then [a[0]] else []) + Above(a[1..] + b, ra[1..] + rb, c)
  {
    assert (a + b)[1..] == a[1..] + b && (ra + rb)[1..] == ra[1..] + rb;
  }

  lemma Associates(a: seq<SchedulePolicy>, b: seq<SchedulePolicy>, c: seq<SchedulePolicy>)
    ensures a + (b + c) == (a + b) + c
  {
  }

  /** Who has been met in turn c and stays on the list, and who is still to be met. */
  function Behind(o: Order, c: nat, m: nat): seq<SchedulePolicy>
    requires |o.list| == |o.rooms| && m <= |o.list|
  {
    Above(o.list[..m], o.rooms[..m], c + 1)
  }

  function Ahead(o: Order, c: nat, m: nat): seq<SchedulePolicy>
    requires |o.list| == |o.rooms| && m <= |o.list|
  {
    Above(o.list[m..], o.rooms[m..], c)
  }

  lemma BehindStep(o: Order, c: nat, m: nat)
    requires |o.list| == |o.rooms| && m < |o.list|
    ensures Behind(o, c, m + 1) == Behind(o, c, m) + if o.rooms[m] > c then [o.list[m]] else []
  {
    assert o.list[..m + 1] == o.list[..m] + [o.list[m]] && o.rooms[..m + 1] == o.rooms[..m] + [o.rooms[m]];
    AboveAppend(o.list[..m], o.rooms[..m], [o.list[m]], [o.rooms[m]], c + 1);
    assert [o.list[m]][1..] == [];
  }

  lemma AheadStep(o: Order, c: nat, m: nat)
    requires |o.list| == |o.rooms| && m < |o.list|
    ensures Ahead(o, c, m) == (if o.rooms[m] >= c then [o.list[m]] else []) + Ahead(o, c, m + 1)
  {
    assert o.list[m..][1..] == o.list[m + 1..] && o.rooms[m..][1..] == o.rooms[m + 1..];
  }

  lemma NewTurn(o: Order, c: nat)
    requires |o.list| == |o.rooms|
    ensures Behind(o, c, |o.list|) == Ahead(o, c + 1, 0) && Ahead(o, c, |o.list|) == [] == Behind(o, c + 1, 0)
  {
    assert o.list[..|o.list|] == o.list == o.list[0..] && o.rooms[..|o.rooms|] == o.rooms == o.rooms[0..];
  }

  /** The list and the cursor at a place: past the end the cursor is at the front again. */
  ghost predicate ListAt(o: Order, c: nat, m: nat, s: State)
    requires |o.list| == |o.rooms| && m <= |o.list|
  {
    && s.list == Behind(o, c, m) + Ahead(o, c, m)
    && s.idx == if Ahead(o, c, m) == [] then 0 else |Behind(o, c, m)|
  }

  ghost predicate RoomsAt(policies: seq<SchedulePolicy>, up: bool, o: Order, c: nat, m: nat, s: State)
    requires Valid(policies, o) && |s.replicas| == |policies|
  {
    forall i :: 0 <= i < |o.at| ==>
      Room(policies[o.at[i]], s.replicas[o.at[i]], up) == o.rooms[i] - GotAll(o.rooms, c, m)[i]
  }

  /** State s is where turn c is through with the first m entries. */
  ghost predicate At(policies: seq<SchedulePolicy>, up: bool, o: Order, rest: int, c: nat, m: nat, s: State) {
    && Valid(policies, o) && Wf(policies, up, s) && m <= |o.list|
    && ListAt(o, c, m, s) && RoomsAt(policies, up, o, c, m, s)
    && s.add == rest - Out(o.rooms, c, m)
  }

  lemma AtNextTurn(policies: seq<SchedulePolicy>, up: bool, o: Order, rest: int, c: nat, s: State)
    requires At(policies, up, o, rest, c, |o.list|, s)
    ensures At(policies, up, o, rest, c + 1, 0, s)
  {
    NewTurn(o, c);
    OutNextTurn(o.rooms, c);
    assert GotAll(o.rooms, c, |o.rooms|) == GotAll(o.rooms, c + 1, 0);
  }

  lemma AtGone(policies: seq<SchedulePolicy>, up: bool, o: Order, rest: int, c: nat, m: nat, s: State)
    requires At(policies, up, o, rest, c, m, s) && m < |o.list| && o.rooms[m] < c
    ensures At(policies, up, o, rest, c, m + 1, s)
  {
    BehindStep(o, c, m);
    AheadStep(o, c, m);
    OutStep(o.rooms, c, m);
    assert GotAll(o.rooms, c, m) == GotAll(o.rooms, c, m + 1);
  }

  /** The entry under the cursor, when the one at hand is still on the list. */
  lemma AtCursor(policies: seq<SchedulePolicy>, up: bool, o: Order, rest: int, c: nat, m: nat, s: State)
    requires At(policies, up, o, rest, c, m, s) && m < |o.list| && o.rooms[m] >= c
    ensures s.list != [] && s.list[s.idx] == o.list[m]
    ensures s.idx == |s.list| - 1 <==> Ahead(o, c, m + 1) == []
    ensures Room(policies[o.at[m]], s.replicas[o.at[m]], up) == o.rooms[m] - c
    ensures forall j :: 0 <= j < |policies| ==> (Matches(policies[j], s.list[s.idx]) <==> j == o.at[m])
  {
    AheadStep(o, c, m);
    assert GotAll(o.rooms, c, m)[m] == c;
  }

  lemma ListServes(o: Order, c: nat, m: nat, s: State, t: State)
    requires |o.list| == |o.rooms| && m < |o.list| && o.rooms[m] > c && ListAt(o, c, m, s)
    requires t.list == s.list && t.idx == if s.idx == |s.list| - 1 then 0 else s.idx + 1
    ensures ListAt(o, c, m + 1, t)
  {
    BehindStep(o, c, m);
    AheadStep(o, c, m);
  }

  lemma ListDrops(o: Order, c: nat, m: nat, s: State, t: State)
    requires |o.list| == |o.rooms| && m < |o.list| && o.rooms[m] == c && ListAt(o, c, m, s)
    requires 0 <= s.idx < |s.list| && t.list == RemoveAt(s.list, s.idx)
      && t.idx == if s.idx == |s.list| - 1 then 0 else s.idx
    ensures ListAt(o, c, m + 1, t)
  {
    BehindStep(o, c, m);
    AheadStep(o, c, m);
    assert t.list == Behind(o, c, m) + Ahead(o, c, m + 1);
  }

  lemma RoomsServe(policies: seq<SchedulePolicy>, up: bool, o: Order, c: nat, m: nat, s: State, t: State)
    requires Valid(policies, o) && |s.replicas| == |policies| && RoomsAt(policies, up, o, c, m, s)
    requires m < |o.list| && o.rooms[m] > c
    requires t.replicas == s.replicas[o.at[m] := Move(s.replicas[o.at[m]], 1, up)]
    ensures RoomsAt(policies, up, o, c, m + 1, t)
  {
    forall i | 0 <= i < |o.at|
      ensures Room(policies[o.at[i]], t.replicas[o.at[i]], up) == o.rooms[i] - GotAll(o.rooms, c, m + 1)[i]
    {
      assert i != m ==> o.at[i] != o.at[m] && GotAll(o.rooms, c, m + 1)[i] == GotAll(o.rooms, c, m)[i];
    }
  }

  /** A visit of the entry at hand serves it or drops it, and brings the run to the next place. */
  lemma RoomsDrop(policies: seq<SchedulePolicy>, up: bool, o: Order, c: nat, m: nat, s: State, t: State)
    requires Valid(policies, o) && |s.replicas| == |policies| && RoomsAt(policies, up, o, c, m, s)
    requires m < |o.list| && o.rooms[m] == c && t.replicas == s.replicas
    ensures RoomsAt(policies, up, o, c, m + 1, t)
  {
    assert GotAll(o.rooms, c, m) == GotAll(o.rooms, c, m + 1);
  }

  lemma AtVisit(policies: seq<SchedulePolicy>, up: bool, o: Order, rest: int, c: nat, m: nat, s: State)
    requires At(policies, up, o, rest, c, m, s) && m < |o.list| && o.rooms[m] >= c
    ensures s.list != [] && At(policies, up, o, rest, c, m + 1, Visit(policies, up, s, o.at[m]))
  {
    hide ListAt, RoomsAt, HaveRoom, Out, Behind, Ahead, Above;
    AtCursor(policies, up, o, rest, c, m, s);
    var t := Visit(policies, up, s, o.at[m]);
    VisitStep(policies, up, s, o.at[m]);
    OutStep(o.rooms, c, m);
    if o.rooms[m] > c {
      ListServes(o, c, m, s, t);
      RoomsServe(policies, up, o, c, m, s, t);
    } else {
      ListDrops(o, c, m, s, t);
      RoomsDrop(policies, up, o, c, m, s, t);
    }
  }

  // ---------- the guarded loop ----------

  lemma {:induction false} SomeAbove(list: seq<SchedulePolicy>, rooms: seq<int>, c: int) returns (i: nat)
    requires |list| == |rooms| && Above(list, rooms, c) != []
    ensures i < |rooms| && rooms[i] >= c
  {
    if rooms[0] >= c {
      i := 0;
    } else {
      i := SomeAbove(list[1..], rooms[1..], c);
      i := i + 1;
    }
  }

  /** While the list is not empty at the end of a turn, the number of the turn is bounded. */
  lemma TurnBound(policies: seq<SchedulePolicy>, up: bool, o: Order, rest: int, c: nat, s: State)
    requires At(policies, up, o, rest, c, |o.list|, s) && s.list != []
    ensures c < Sum(o.rooms)
  {
    NewTurn(o, c);
    assert o.list[..|o.list|] == o.list && o.rooms[..|o.rooms|] == o.rooms;
    var i := SomeAbove(o.list, o.rooms, c + 1);
    AtMostSum(o.rooms, i);
  }

  /** Where a sweep of the guarded loop stops: with the last replica just given, at the position behind
      the policy that got it, or with some still to give or nobody left. */
  ghost predicate Stopped(policies: seq<SchedulePolicy>, up: bool, o: Order, rest: int, t: Stop) {
    exists c: nat, m: nat ::
      && At(policies, up, o, rest, c, m, t.state) && c <= Sum(o.rooms)
      && (t.state.add == 0 ==> m > 0 && IsLast(o.rooms, rest, c, m - 1) && t.next == o.at[m - 1] + 1)
  }

  lemma StoppedAfter(policies: seq<SchedulePolicy>, up: bool, o: Order, rest: int, c: nat, m: nat, s: State)
    requires At(policies, up, o, rest, c, m, s) && m < |o.list| && o.rooms[m] >= c && s.add > 0
    requires s.list != [] && Visit(policies, up, s, o.at[m]).add == 0 && c <= Sum(o.rooms)
    ensures Stopped(policies, up, o, rest, Stop(Visit(policies, up, s, o.at[m]), o.at[m] + 1))
  {
    AtVisit(policies, up, o, rest, c, m, s);
    OutStep(o.rooms, c, m);
    assert IsLast(o.rooms, rest, c, m + 1 - 1);
  }

  lemma {:induction false} StopSweepAt(policies: seq<SchedulePolicy>, up: bool, o: Order, rest: int, c: nat, m: nat,
                                       s: State, j: nat)
    requires At(policies, up, o, rest, c, m, s) && s.add > 0 && j <= |policies| && c <= Sum(o.rooms)
    ensures Stopped(policies, up, o, rest, StopSweep(policies, up, s, j))
    decreases |policies| - j, Sum(o.rooms) - c, |o.list| - m
  {
    if j == |policies| || s.list == [] {
    } else if m == |o.list| {
      TurnBound(policies, up, o, rest, c, s);
      AtNextTurn(policies, up, o, rest, c, s);
      StopSweepAt(policies, up, o, rest, c + 1, 0, s, j);
    } else if o.rooms[m] < c {
      AtGone(policies, up, o, rest, c, m, s);
      StopSweepAt(policies, up, o, rest, c, m + 1, s, j);
    } else {
      StopVisit(policies, up, o, rest, c, m, s, j);
    }
  }

  lemma {:induction false} StopVisit(policies: seq<SchedulePolicy>, up: bool, o: Order, rest: int, c: nat, m: nat,
                                     s: State, j: nat)
    requires At(policies, up, o, rest, c, m, s) && s.add > 0 && j < |policies| && c <= Sum(o.rooms)
    requires m < |o.list| && o.rooms[m] >= c
    ensures Stopped(policies, up, o, rest, StopSweep(policies, up, s, j))
    decreases |policies| - j, Sum(o.rooms) - c, |o.list| - m, 0
  {
    hide ListAt, RoomsAt, Matches, HaveRoom, Stopped, StopSweep, Out;
    AtCursor(policies, up, o, rest, c, m, s);
    StopSweepStep(policies, up, s, j);
    var t := Visit(policies, up, s, j);
    if j != o.at[m] {
      StopSweepAt(policies, up, o, rest, c, m, s, j + 1);
      assert StopSweep(policies, up, s, j) == StopSweep(policies, up, s, j + 1);
    } else if t.add == 0 {
      StoppedAfter(policies, up, o, rest, c, m, s);
    } else {
      AtVisit(policies, up, o, rest, c, m, s);
      StopSweepAt(policies, up, o, rest, c, m + 1, t, j + 1);
      assert StopSweep(policies, up, s, j) == StopSweep(policies, up, t, j + 1);
    }
  }

  lemma {:induction false} MeantAt(policies: seq<SchedulePolicy>, up: bool, o: Order, rest: int, c: nat, m: nat,
                                   s: State)
    requires At(policies, up, o, rest, c, m, s) && s.add > 0 && c <= Sum(o.rooms)
    ensures Stopped(policies, up, o, rest, Meant(policies, up, s))
    decreases Measure(policies, up, s)
  {
    if s.list != [] {
      StopSweepAt(policies, up, o, rest, c, m, s, 0);
      StopSweepFalls(policies, up, s);
      var t := StopSweep(policies, up, s, 0);
      if t.state.add != 0 && t.state.list != [] {
        var d: nat, q: nat :| At(policies, up, o, rest, d, q, t.state) && d <= Sum(o.rooms);
        MeantAt(policies, up, o, rest, d, q, t.state);
      }
    }
  }

  // ---------- the rest of the sweep ----------

  lemma {:induction false} NoneAbove(list: seq<SchedulePolicy>, rooms: seq<int>, c: int, i: nat)
    requires |list| == |rooms| && i < |rooms| && Above(list, rooms, c) == []
    ensures rooms[i] < c
  {
    if i > 0 {
      NoneAbove(list[1..], rooms[1..], c, i - 1);
    }
  }

  /** With nobody left on the list, everybody has what there was room for. */
  lemma AllGone(o: Order, c: nat, m: nat)
    requires |o.list| == |o.rooms| && m <= |o.list| && Behind(o, c, m) + Ahead(o, c, m) == []
    ensures forall i :: 0 <= i < |o.rooms| ==> o.rooms[i] < if i < m then c + 1 else c
    ensures Out(o.rooms, c, m) == Sum(o.rooms)
  {
    forall i | 0 <= i < |o.rooms| ensures o.rooms[i] < if i < m then c + 1 else c {
      if i < m {
        NoneAbove(o.list[..m], o.rooms[..m], c + 1, i);
      } else {
        NoneAbove(o.list[m..], o.rooms[m..], c, i - m);
      }
    }
    assert GotAll(o.rooms, c, m) == o.rooms;
  }

  lemma NobodyAwaits(policies: seq<SchedulePolicy>, o: Order, c: nat, m: nat, from: nat)
    requires Valid(policies, o) && m <= |o.list|
    requires from == |policies| || Behind(o, c, m) + Ahead(o, c, m) == []
    ensures !Awaits(o.rooms, o.at, c, m, from)
  {
    if Behind(o, c, m) + Ahead(o, c, m) == [] {
      AllGone(o, c, m);
    }
  }

  lemma ServesStep(policies: seq<SchedulePolicy>, up: bool, o: Order, rest: int, c: nat, m: nat, s: State, j: nat)
    requires At(policies, up, o, rest, c, m, s) && j < |policies| && m < |o.list| && o.rooms[m] >= c
    ensures var t := Visit(policies, up, s, j);
      && s.list != [] && Wf(policies, up, t)
      && (j != o.at[m] ==> ServesFrom(policies, up, s, j) == ServesFrom(policies, up, s, j + 1))
      && (j == o.at[m] && o.rooms[m] > c ==> ServesFrom(policies, up, s, j))
      && (j == o.at[m] && o.rooms[m] == c ==> ServesFrom(policies, up, s, j) == ServesFrom(policies, up, t, j + 1))
  {
    AtCursor(policies, up, o, rest, c, m, s);
    VisitStep(policies, up, s, j);
  }

  /** The rest of a sweep serves somebody exactly if the order of turns has it so. */
  lemma {:induction false} ServesAt(policies: seq<SchedulePolicy>, up: bool, o: Order, rest: int, c: nat, m: nat,
                                    s: State, j: nat)
    requires At(policies, up, o, rest, c, m, s) && j <= |policies| && c <= Sum(o.rooms)
    ensures ServesFrom(policies, up, s, j) <==> Awaits(o.rooms, o.at, c, m, j)
    decreases |policies| - j, Sum(o.rooms) - c, |o.list| - m
  {
    if j == |policies| || s.list == [] {
      NobodyAwaits(policies, o, c, m, j);
    } else if m == |o.list| {
      TurnBound(policies, up, o, rest, c, s);
      AtNextTurn(policies, up, o, rest, c, s);
      AwaitsNextTurn(o.rooms, o.at, c, j);
      ServesAt(policies, up, o, rest, c + 1, 0, s, j);
    } else if o.rooms[m] < c {
      AtGone(policies, up, o, rest, c, m, s);
      AwaitsGone(o.rooms, o.at, c, m, j);
      ServesAt(policies, up, o, rest, c, m + 1, s, j);
    } else {
      ServesVisit(policies, up, o, rest, c, m, s, j);
    }
  }

  lemma {:induction false} ServesVisit(policies: seq<SchedulePolicy>, up: bool, o: Order, rest: int, c: nat, m: nat,
                                       s: State, j: nat)
    requires At(policies, up, o, rest, c, m, s) && c <= Sum(o.rooms) && j < |policies|
    requires m < |o.list| == |o.at| == |o.rooms| && o.rooms[m] >= c
    ensures ServesFrom(policies, up, s, j) <==> Awaits(o.rooms, o.at, c, m, j)
    decreases |policies| - j, Sum(o.rooms) - c, |o.list| - m, 0
  {
    hide *;
    ServesStep(policies, up, o, rest, c, m, s, j);
    if j != o.at[m] {
      AwaitsOther(o.rooms, o.at, c, m, j);
      ServesAt(policies, up, o, rest, c, m, s, j + 1);
    } else if o.rooms[m] > c {
      AwaitsServed(o.rooms, o.at, c, m, j);
    } else {
      ServesDrop(policies, up, o, rest, c, m, s);
    }
  }

  lemma {:induction false} ServesDrop(policies: seq<SchedulePolicy>, up: bool, o: Order, rest: int, c: nat, m: nat,
                                      s: State)
    requires At(policies, up, o, rest, c, m, s) && c <= Sum(o.rooms) && m < |o.list| == |o.at| && o.rooms[m] == c
    ensures ServesFrom(policies, up, s, o.at[m]) == Awaits(o.rooms, o.at, c, m, o.at[m])
    decreases |policies| - o.at[m], Sum(o.rooms) - c, |o.list| - m, -1
  {
    hide *;
    var t := DropStep(policies, up, o, rest, c, m, s);
    ServesAt(policies, up, o, rest, c, m + 1, t, o.at[m] + 1);
  }

  lemma DropStep(policies: seq<SchedulePolicy>, up: bool, o: Order, rest: int, c: nat, m: nat, s: State)
    returns (t: State)
    requires At(policies, up, o, rest, c, m, s) && m < |o.list| && o.rooms[m] == c
    ensures o.at[m] < |policies| && At(policies, up, o, rest, c, m + 1, t)
    ensures ServesFrom(policies, up, s, o.at[m]) == ServesFrom(policies, up, t, o.at[m] + 1)
    ensures Awaits(o.rooms, o.at, c, m, o.at[m]) == Awaits(o.rooms, o.at, c, m + 1, o.at[m] + 1)
  {
    hide ListAt, RoomsAt, Visit, Matches, ServesFrom, Awaits, Out, HaveRoom;
    ServesStep(policies, up, o, rest, c, m, s, o.at[m]);
    t := Visit(policies, up, s, o.at[m]);
    AtVisit(policies, up, o, rest, c, m, s);
    AwaitsFull(o.rooms, o.at, c, m, o.at[m]);
  }

  /** The run gives too many exactly if the order of turns says so. */
  lemma OvershootsExact(policies: seq<SchedulePolicy>, up: bool, o: Order, rest: nat, s: State)
    requires At(policies, up, o, rest, 0, 0, s) && s.add == rest
    ensures Overshoots(policies, up, s) <==> ServesTooMany(o.rooms, o.at, rest)
  {
    OutBounds(o.rooms, 0, 0);
    if rest == 0 {
      NobodyServed(o.rooms, o.at);
    } else {
      MeantAt(policies, up, o, rest, 0, 0, s);
      OvershootsStopped(policies, up, o, rest, Meant(policies, up, s));
    }
  }

  lemma OvershootsStopped(policies: seq<SchedulePolicy>, up: bool, o: Order, rest: nat, t: Stop)
    requires Stopped(policies, up, o, rest, t) && Wf(policies, up, t.state) && t.next <= |policies|
    requires t.state.add >= 0 && (t.state.add == 0 || t.state.list == [])
    ensures t.state.add == 0 && ServesFrom(policies, up, t.state, t.next) <==> ServesTooMany(o.rooms, o.at, rest)
  {
    var c: nat, m: nat :| At(policies, up, o, rest, c, m, t.state) && c <= Sum(o.rooms)
      && (t.state.add == 0 ==> m > 0 && IsLast(o.rooms, rest, c, m - 1) && t.next == o.at[m - 1] + 1);
    if t.state.add == 0 {
      OvershootsGiven(policies, up, o, rest, c, m, t);
    } else {
      AllGone(o, c, m);
      MoreThanFits(o, rest);
    }
  }

  lemma OvershootsGiven(policies: seq<SchedulePolicy>, up: bool, o: Order, rest: nat, c: nat, m: nat, t: Stop)
    requires At(policies, up, o, rest, c, m, t.state) && Wf(policies, up, t.state) && c <= Sum(o.rooms)
    requires 0 < m <= |o.at| == |o.rooms| && IsLast(o.rooms, rest, c, m - 1) && t.next == o.at[m - 1] + 1 <= |policies|
    ensures ServesFrom(policies, up, t.state, t.next) == ServesTooMany(o.rooms, o.at, rest)
  {
    hide *;
    ServesAt(policies, up, o, rest, c, m, t.state, t.next);
    TooManyAwaits(o.rooms, o.at, rest, c, m - 1);
  }

  lemma MoreThanFits(o: Order, rest: nat)
    requires |o.at| == |o.rooms| && rest > Sum(o.rooms) && forall i :: 0 <= i < |o.rooms| ==> o.rooms[i] >= 0
    ensures !ServesTooMany(o.rooms, o.at, rest)
  {
    forall c: nat, p: nat | p < |o.rooms| ensures !IsLast(o.rooms, rest, c, p) {
      OutBounds(o.rooms, c, p + 1);
    }
  }

  // ---------- the order at the start ----------

  /** Where in the policy list an entry of the sorted list stands; its length if nowhere. */
  function PositionOf(policies: seq<SchedulePolicy>, entry: SchedulePolicy): (j: nat)
    ensures j <= |policies| && (j < |policies| ==> Matches(policies[j], entry))
    ensures forall k :: 0 <= k < j ==> !Matches(policies[k], entry)
  {
    if policies == [] || Matches(policies[0], entry) then 0 else PositionOf(policies[1..], entry) + 1
  }

  function RoomOf(policies: seq<SchedulePolicy>, up: bool, replicas: seq<int>, entry: SchedulePolicy): int
    requires |replicas| == |policies|
  {
    var j := PositionOf(policies, entry);
    if j < |policies| then Room(policies[j], replicas[j], up) else 0
  }

  /** The order of turns from these replica counts on. */
  function OrderOf(policies: seq<SchedulePolicy>, up: bool, replicas: seq<int>, list: seq<SchedulePolicy>): (o: Order)
    requires |replicas| == |policies|
    ensures o.list == list && |o.rooms| == |o.at| == |list|
    ensures forall i :: 0 <= i < |list| ==>
      o.rooms[i] == RoomOf(policies, up, replicas, list[i]) && o.at[i] == PositionOf(policies, list[i])
  {
    Order(list,
          seq(|list|, i requires 0 <= i < |list| => RoomOf(policies, up, replicas, list[i])),
          seq(|list|, i requires 0 <= i < |list| => PositionOf(policies, list[i])))
  }

  /** Starting from state s the round robin gives too many: a condition on the rooms, the order of
      the two lists and the remainder only. */
  ghost predicate GivesTooManyFrom(policies: seq<SchedulePolicy>, up: bool, s: State)
    requires |s.replicas| == |policies|
  {
    var o := OrderOf(policies, up, s.replicas, s.list);
    ServesTooMany(o.rooms, o.at, s.add)
  }

  lemma PositionIs(policies: seq<SchedulePolicy>, entry: SchedulePolicy)
    requires Distinct(policies) && entry in policies
    ensures PositionOf(policies, entry) < |policies|
    ensures forall j :: 0 <= j < |policies| ==> (Matches(policies[j], entry) <==> j == PositionOf(policies, entry))
  {
    var p := PositionOf(policies, entry);
    var k :| 0 <= k < |policies| && policies[k] == entry;
    assert Matches(policies[k], entry);
    forall j | 0 <= j < |policies| && Matches(policies[j], entry) ensures j == p {
      assert Matches(policies[j], policies[p]) && Matches(policies[p], policies[j]);
    }
  }

  lemma OrderIsValid(policies: seq<SchedulePolicy>, up: bool, s: State)
    requires Wf(policies, up, s) && Distinct(policies) && Distinct(s.list)
    ensures Valid(policies, OrderOf(policies, up, s.replicas, s.list))
  {
    var o := OrderOf(policies, up, s.replicas, s.list);
    forall i | 0 <= i < |s.list|
      ensures o.at[i] < |policies| && o.rooms[i] == Room(policies[o.at[i]], s.replicas[o.at[i]], up) >= 0
      ensures forall j :: 0 <= j < |policies| ==> (Matches(policies[j], s.list[i]) <==> j == o.at[i])
    {
      PositionIs(policies, s.list[i]);
    }
    forall i, j | 0 <= i < |o.at| && 0 <= j < |o.at| && o.at[i] == o.at[j] ensures i == j {
      assert Matches(policies[o.at[i]], s.list[i]) && Matches(policies[o.at[i]], s.list[j]);
      assert Matches(s.list[i], s.list[j]) && Matches(s.list[j], s.list[i]);
    }
  }

  lemma {:induction false} AllAbove(list: seq<SchedulePolicy>, rooms: seq<int>)
    requires |list| == |rooms| && forall i :: 0 <= i < |rooms| ==> rooms[i] >= 0
    ensures Above(list, rooms, 0) == list
  {
    if list != [] {
      AllAbove(list[1..], rooms[1..]);
      assert list == [list[0]] + list[1..];
    }
  }

  lemma RoomsFirst(policies: seq<SchedulePolicy>, up: bool, s: State, o: Order)
    requires Wf(policies, up, s) && Valid(policies, o) && o == OrderOf(policies, up, s.replicas, s.list)
    ensures RoomsAt(policies, up, o, 0, 0, s)
  {
  }

  lemma StartsAt(policies: seq<SchedulePolicy>, up: bool, o: Order, s: State)
    requires Wf(policies, up, s) && Valid(policies, o) && o == OrderOf(policies, up, s.replicas, s.list) && s.idx == 0
    ensures At(policies, up, o, s.add, 0, 0, s)
  {
    hide OrderOf, Valid, Wf, ListAt, RoomsAt, Above, Behind, Ahead;
    AllAhead(policies, o, s);
    RoomsFirst(policies, up, s, o);
    NoneOut(policies, o);
  }

  lemma AllAhead(policies: seq<SchedulePolicy>, o: Order, s: State)
    requires Valid(policies, o) && o.list == s.list && s.idx == 0
    ensures ListAt(o, 0, 0, s)
  {
    AllAbove(o.list, o.rooms);
    assert o.list[0..] == o.list && o.rooms[0..] == o.rooms && o.list[..0] == [];
  }

  lemma NoneOut(policies: seq<SchedulePolicy>, o: Order)
    requires Valid(policies, o)
    ensures Out(o.rooms, 0, 0) == 0
  {
    OutBounds(o.rooms, 0, 0);
  }

  /** Whether a run of the code gives too many can be read off where it starts. */
  lemma OvershootsFromStart(policies: seq<SchedulePolicy>, up: bool, s: State)
    requires Wf(policies, up, s) && s.idx == 0 && s.add >= 0 && Distinct(policies) && Distinct(s.list)
    ensures Overshoots(policies, up, s) == GivesTooManyFrom(policies, up, s)
  {
    OrderIsValid(policies, up, s);
    var o := OrderOf(policies, up, s.replicas, s.list);
    StartsAt(policies, up, o, s);
    OvershootsExact(policies, up, o, s.add, s);
  }
}
