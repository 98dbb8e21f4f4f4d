/** How the role round robin ends, computed from where it stands: no replica is given out one by one.

    Until a cluster is full when its turn comes, every pass is the same, so the place where that happens and
    what is given out by then are known at once. There the role leaves the list, and the rest is the same
    question over a shorter list, from the next cluster of the same sweep on. */
module RoleEnd {
  import opened Sums
  import opened Policies
  import opened RoundRobin
  import opened RoleRoundRobin
  import opened RoleTurns

  datatype End =
    | AllGiven
    | SomeLeft(left: nat)   // the list is empty, and so many replicas remain
    | Panics                // the list is read at -1
    | NeverEnds             // replicas remain, but no role left on the list has a cluster

  predicate NoneNegative(rooms: seq<int>) {
    forall k :: 0 <= k < |rooms| ==> rooms[k] >= 0
  }

  // ---------- the first full cluster ----------

  lemma FirstFullUnique(o: RoleOrder, p: nat, j: nat)
    requires FirstFull(o) && FirstFull(o.(p := p, j := j))
    ensures p == o.p && j == o.j
  {
    assert o.list[o.p].role == o.instances[o.j].role && o.list[p].role == o.instances[j].role;
    ListsEarlier(o.list);
  }

  lemma ListsEarlier(list: seq<SchedulePolicy>)
    ensures forall p: nat, q: nat | p < q <= |list| :: Lists(list[..q], list[p].role)
  {
    forall p: nat, q: nat | p < q <= |list| ensures Lists(list[..q], list[p].role) {
      assert list[..q][p] == list[p];
    }
  }

  /** The order of service with the first full cluster, when passes start at the front of the list. */
  function OrderToFull(instances: seq<SchedulePolicy>, rooms: seq<int>, list: seq<SchedulePolicy>): (o: RoleOrder)
    requires |rooms| == |instances| && NoneNegative(rooms) && AnyCarried(instances, list, 0)
    ensures FirstFull(o) && o == RoleOrder(instances, rooms, list, o.p, o.j)
  {
    FirstFullThere(instances, rooms, list);
    var p: nat, j: nat :|
      p < |list| && j < |instances| && FirstFull(RoleOrder(instances, rooms, list, p, j));
    RoleOrder(instances, rooms, list, p, j)
  }

  lemma FirstFullThere(instances: seq<SchedulePolicy>, rooms: seq<int>, list: seq<SchedulePolicy>)
    requires |rooms| == |instances| && NoneNegative(rooms) && AnyCarried(instances, list, 0)
    ensures exists p: nat, j: nat ::
      p < |list| && j < |instances| && FirstFull(RoleOrder(instances, rooms, list, p, j))
    ensures forall p: nat, j: nat, q: nat, k: nat ::
      FirstFull(RoleOrder(instances, rooms, list, p, j)) && FirstFull(RoleOrder(instances, rooms, list, q, k)) ==>
        p == q && j == k
  {
    var p, j := FirstFullExists(instances, rooms, list);
    var o := RoleOrder(instances, rooms, list, p, j);
    assert FirstFull(o);
    forall q: nat, k: nat | FirstFull(o.(p := q, j := k)) ensures q == p && k == j {
      FirstFullUnique(o, q, k);
    }
  }

  /** There is a first full cluster if and only if some cluster has a listed role. */
  lemma FullIffCarried(instances: seq<SchedulePolicy>, rooms: seq<int>, list: seq<SchedulePolicy>)
    requires |rooms| == |instances| && NoneNegative(rooms)
    ensures AnyCarried(instances, list, 0) <==>
      exists p: nat, j: nat :: FirstFull(RoleOrder(instances, rooms, list, p, j))
  {
    if AnyCarried(instances, list, 0) {
      FirstFullThere(instances, rooms, list);
    } else if p: nat, j: nat :| FirstFull(RoleOrder(instances, rooms, list, p, j)) {
      assert Carried(instances, list[p].role);
    }
  }

  // ---------- from the middle of a sweep ----------

  /** The rooms at the start of a pass that has got to cluster j in the turn of entry p and has left these. */
  function RoomsBefore(instances: seq<SchedulePolicy>, rooms: seq<int>, list: seq<SchedulePolicy>, p: nat,
                       j: nat): (r: seq<int>)
    requires |rooms| == |instances| && p < |list|
    ensures |r| == |rooms|
    ensures forall k :: 0 <= k < |r| ==> r[k] == rooms[k] + Served(instances, list, p, j)[k]
    ensures NoneNegative(rooms) ==> NoneNegative(r)
  {
    seq(|rooms|, k requires 0 <= k < |rooms| => rooms[k] + Served(instances, list, p, j)[k])
  }

  /** What a pass that has got there has given to every cluster. */
  function Served(instances: seq<SchedulePolicy>, list: seq<SchedulePolicy>, p: nat, j: nat): (r: seq<int>)
    requires p < |list|
    ensures |r| == |instances| && NoneNegative(r)
  {
    Due(RoleOrder(instances, [], list, 0, 0), 0, p, j)
  }

  /** The rooms when the full cluster is met. */
  function RoomsAtFull(o: RoleOrder): (r: seq<int>)
    requires FirstFull(o)
    ensures |r| == |o.rooms| && forall k :: 0 <= k < |r| ==> r[k] == o.rooms[k] - Due(o, o.rooms[o.j], o.p, o.j)[k]
    ensures NoneNegative(o.rooms) ==> NoneNegative(r)
  {
    seq(|o.rooms|, k requires 0 <= k < |o.rooms| => o.rooms[k] - Due(o, o.rooms[o.j], o.p, o.j)[k])
  }

  /** How the loop ends that stands at cluster j in the turn of entry p with these rooms and `rest` to give. */
  function EndOf(instances: seq<SchedulePolicy>, rooms: seq<int>, list: seq<SchedulePolicy>, p: nat, j: nat,
                 rest: nat, asWritten: bool): End
    requires |rooms| == |instances| && NoneNegative(rooms) && p < |list|
    decreases |list|, 1
  {
    if rest == 0 then AllGiven
    else if !AnyCarried(instances, list, 0) then NeverEnds
    else
      var o := OrderToFull(instances, RoomsBefore(instances, rooms, list, p, j), list);
      var left := rest + Sum(Served(instances, list, p, j)) - GivenBeforeFull(o);
      if left <= 0 then AllGiven else AfterFull(o, left, asWritten)
  }

  /** How it ends with `left` to give when the full cluster is met: its role leaves the list. In front of the last
      entry the sweep goes on; behind it, the loop starts over, but as written only the last cluster gets that far. */
  function AfterFull(o: RoleOrder, left: nat, asWritten: bool): End
    requires FirstFull(o) && NoneNegative(o.rooms)
    decreases |o.list|, 0
  {
    var rooms, list := RoomsAtFull(o), RemoveAt(o.list, o.p);
    if list == [] then SomeLeft(left)
    else if o.p < |list| then EndOf(o.instances, rooms, list, o.p, o.j + 1, left, asWritten)
    else if asWritten && o.j < |o.instances| - 1 then Panics
    else EndOf(o.instances, rooms, list, 0, 0, left, asWritten)
  }

  predicate EndsAs(r: RoleStep, e: End) {
    match e
    case AllGiven => r.Returned? && r.state.add == 0
    case SomeLeft(left) => r.Returned? && r.state.add == left > 0
    case Panics => r.IndexPanic?
    case NeverEnds => r.Spins?
  }

  // ---------- the run ends so ----------

  function RoomsOf(instances: seq<SchedulePolicy>, up: bool, replicas: seq<int>): (r: seq<int>)
    requires |replicas| == |instances|
    ensures |r| == |instances| && forall k :: 0 <= k < |r| ==> r[k] == Room(instances[k], replicas[k], up)
  {
    seq(|instances|, k requires 0 <= k < |instances| => Room(instances[k], replicas[k], up))
  }

  lemma WfRooms(instances: seq<SchedulePolicy>, up: bool, s: State)
    requires RoleWf(instances, up, s)
    ensures NoneNegative(RoomsOf(instances, up, s.replicas))
  {
  }

  /** The order of service up to the full cluster, and what was to give when its pass began. */
  lemma PassFrom(instances: seq<SchedulePolicy>, up: bool, s: State, j: nat) returns (o: RoleOrder, owed: int)
    requires RoleWf(instances, up, s) && s.idx >= 0 && j <= |instances| && DistinctRoles(s.list)
    requires AnyCarried(instances, s.list, 0)
    ensures NoneNegative(RoomsOf(instances, up, s.replicas))
    ensures o == OrderToFull(instances, RoomsBefore(instances, RoomsOf(instances, up, s.replicas), s.list, s.idx, j),
      s.list)
    ensures owed == s.add + Sum(Served(instances, s.list, s.idx, j))
    ensures Valid(o) && o.j < |o.rooms| && InPass(o, up, owed, 0, s.idx, j, s) && InTime(o, 0, s.idx, j)
  {
    o := OrderToFull(instances, RoomsBefore(instances, RoomsOf(instances, up, s.replicas), s.list, s.idx, j), s.list);
    owed := s.add + Sum(Served(instances, s.list, s.idx, j));
    assert Due(o, 0, s.idx, j) == Served(instances, s.list, s.idx, j);
    FullIsAhead(o, s.idx, j);
  }

  /** A cluster that is full at once has not been served in this pass. */
  lemma FullIsAhead(o: RoleOrder, p: nat, j: nat)
    requires Valid(o) && p < |o.list|
    requires forall k :: 0 <= k < |o.rooms| ==> o.rooms[k] >= Due(o, 0, p, j)[k]
    ensures InTime(o, 0, p, j)
  {
    ListsEarlier(o.list);
    assert Lists(o.list, o.instances[o.j].role);
  }

  /** At the full cluster its role leaves the list. */
  lemma DropAtFull(o: RoleOrder, up: bool, owed: int, t: State, asWritten: bool)
    requires Valid(o) && o.j < |o.rooms| && InPass(o, up, owed, o.rooms[o.j], o.p, o.j, t) && t.add > 0
    ensures var r := RunFrom(o.instances, up, t, o.j, asWritten);
      && (|o.list| == 1 ==> r == Returned(Drop(t)))
      && (|o.list| > 1 ==> RoleWf(o.instances, up, Drop(t)))
      && (o.p < |o.list| - 1 ==> r == RunFrom(o.instances, up, Drop(t), o.j + 1, asWritten))
      && (|o.list| > 1 && o.p == |o.list| - 1 && (!asWritten || o.j == |o.instances| - 1) ==>
        r == RoleRounds(o.instances, up, Drop(t), asWritten))
      && (|o.list| > 1 && o.p == |o.list| - 1 && asWritten && o.j < |o.instances| - 1 ==> r == IndexPanic)
  {
    HasRoom(o, up, owed, o.rooms[o.j], o.p, o.j, t);
    DropKeeps(o.instances, up, t, o.j);
    FullStep(o.instances, up, t, o.j, asWritten);
  }

  lemma FullStep(instances: seq<SchedulePolicy>, up: bool, s: State, j: nat, asWritten: bool)
    requires RoleWf(instances, up, s) && s.idx >= 0 && j < |instances| && s.add > 0
    requires instances[j].role == s.list[s.idx].role && Room(instances[j], s.replicas[j], up) == 0
    requires |s.list| > 1 ==> RoleWf(instances, up, Drop(s))
    ensures var r, t := RunFrom(instances, up, s, j, asWritten), Drop(s);
      && (|s.list| == 1 ==> r == Returned(t))
      && (s.idx < |s.list| - 1 ==> r == RunFrom(instances, up, t, j + 1, asWritten))
      && (|s.list| > 1 && s.idx == |s.list| - 1 && (!asWritten || j == |instances| - 1) ==>
        r == RoleRounds(instances, up, t, asWritten))
      && (|s.list| > 1 && s.idx == |s.list| - 1 && asWritten && j < |instances| - 1 ==> r == IndexPanic)
  {
    if |s.list| > 1 && s.idx == |s.list| - 1 && asWritten {
      assert RoleSweep(instances, up, s, j, true) == RoleSweep(instances, up, Drop(s), j + 1, true);
    }
  }

  lemma DistinctWithout(list: seq<SchedulePolicy>, p: nat)
    requires DistinctRoles(list) && p < |list|
    ensures DistinctRoles(RemoveAt(list, p))
  {
  }

  /** A sweep with nothing to give, or nobody to give it to. */
  lemma RunAtOnce(instances: seq<SchedulePolicy>, up: bool, s: State, j: nat, asWritten: bool)
    requires RoleWf(instances, up, s) && s.idx >= 0 && j <= |instances|
    requires s.add == 0 || !AnyCarried(instances, s.list, 0)
    ensures RunFrom(instances, up, s, j, asWritten) == if s.add == 0 then Returned(s) else Spins(s)
  {
    if s.add != 0 {
      assert !Carried(instances, s.list[s.idx].role);
      UncarriedSweep(instances, up, s, j, asWritten);
    }
  }

  /** The counts at the full cluster, and after its role has left the list. */
  lemma RoomsThere(o: RoleOrder, up: bool, owed: int, t: State)
    requires Valid(o) && o.j < |o.rooms| && InPass(o, up, owed, o.rooms[o.j], o.p, o.j, t)
    ensures t.list == o.list && t.idx == o.p && RoomsOf(o.instances, up, Drop(t).replicas) == RoomsAtFull(o)
    ensures Drop(t).list == RemoveAt(o.list, o.p) && Drop(t).add == t.add
    ensures Drop(t).idx == if o.p == |o.list| - 1 then -1 else o.p
  {
    assert RoomsOf(o.instances, up, t.replicas) == RoomsAtFull(o);
  }

  /** The run from the middle of a sweep ends as computed. */
  lemma {:induction false} RunEnds(instances: seq<SchedulePolicy>, up: bool, s: State, j: nat, asWritten: bool)
    requires RoleWf(instances, up, s) && s.idx >= 0 && j <= |instances| && DistinctRoles(s.list)
    ensures NoneNegative(RoomsOf(instances, up, s.replicas))
    ensures EndsAs(RunFrom(instances, up, s, j, asWritten),
      EndOf(instances, RoomsOf(instances, up, s.replicas), s.list, s.idx, j, s.add, asWritten))
    decreases |s.list|, 1
  {
    hide RunFrom, InPass, InTime, FirstFull, AfterFull, DistinctRoles, AnyCarried;
    WfRooms(instances, up, s);
    if s.add == 0 || !AnyCarried(instances, s.list, 0) {
      RunAtOnce(instances, up, s, j, asWritten);
    } else {
      var o, owed := PassFrom(instances, up, s, j);
      var t := ReachFull(o, up, owed, 0, s.idx, j, s, asWritten);
      if owed > GivenBeforeFull(o) {
        FullEnds(o, up, owed, t, asWritten);
      }
    }
  }

  lemma {:induction false} FullEnds(o: RoleOrder, up: bool, owed: int, t: State, asWritten: bool)
    requires Valid(o) && NoneNegative(o.rooms) && t.add > 0
    requires o.j < |o.rooms| && InPass(o, up, owed, o.rooms[o.j], o.p, o.j, t)
    ensures EndsAs(RunFrom(o.instances, up, t, o.j, asWritten), AfterFull(o, t.add, asWritten))
    decreases |o.list|, 0
  {
    hide RunFrom, InPass, EndOf, RoomsDue, DistinctRoles;
    RoomsThere(o, up, owed, t);
    DropAtFull(o, up, owed, t, asWritten);
    if |o.list| > 1 {
      DistinctWithout(o.list, o.p);
      if o.p < |o.list| - 1 {
        RunEnds(o.instances, up, Drop(t), o.j + 1, asWritten);
      } else {
        LoopEnds(o.instances, up, Drop(t), asWritten);
      }
    }
  }

  /** So does the loop, from the front of the list. */
  lemma {:induction false} LoopEnds(instances: seq<SchedulePolicy>, up: bool, s: State, asWritten: bool)
    requires RoleWf(instances, up, s) && s.idx == -1 && DistinctRoles(s.list)
    ensures NoneNegative(RoomsOf(instances, up, s.replicas))
    ensures EndsAs(RoleRounds(instances, up, s, asWritten),
      EndOf(instances, RoomsOf(instances, up, s.replicas), s.list, 0, 0, s.add, asWritten))
    decreases |s.list|, 2
  {
    WfRooms(instances, up, s);
    if s.add > 0 && AnyCarried(instances, s.list, 0) {
      RunTurns(instances, up, s, asWritten);
      RunEnds(instances, up, Turn(s), 0, asWritten);
    }
  }

  // ---------- the two readings, and the shortest case ----------

  /** What is meant never panics; and what is written ends in the same way unless it does. */
  lemma {:induction false} ReadingsAgree(instances: seq<SchedulePolicy>, rooms: seq<int>, list: seq<SchedulePolicy>,
                                         p: nat, j: nat, rest: nat)
    requires |rooms| == |instances| && NoneNegative(rooms) && p < |list|
    ensures var written, meant := EndOf(instances, rooms, list, p, j, rest, true),
                                  EndOf(instances, rooms, list, p, j, rest, false);
      !meant.Panics? && (written.Panics? || written == meant)
    decreases |list|, 1
  {
    hide AfterFull, FirstFull, Due, AnyCarried, Served;
    if rest != 0 && AnyCarried(instances, list, 0) {
      var o := OrderToFull(instances, RoomsBefore(instances, rooms, list, p, j), list);
      var left := rest + Sum(Served(instances, list, p, j)) - GivenBeforeFull(o);
      if left > 0 {
        ReadingsAgreeAfter(o, left);
      }
    }
  }

  lemma {:induction false} ReadingsAgreeAfter(o: RoleOrder, left: nat)
    requires FirstFull(o) && NoneNegative(o.rooms)
    ensures var written, meant := AfterFull(o, left, true), AfterFull(o, left, false);
      !meant.Panics? && (written.Panics? || written == meant)
    decreases |o.list|, 0
  {
    hide EndOf, Due;
    if |o.list| > 1 {
      if o.p < |o.list| - 1 {
        ReadingsAgree(o.instances, RoomsAtFull(o), RemoveAt(o.list, o.p), o.p, o.j + 1, left);
      } else {
        ReadingsAgree(o.instances, RoomsAtFull(o), RemoveAt(o.list, o.p), 0, 0, left);
      }
    }
  }

  lemma ServedAtFront(instances: seq<SchedulePolicy>, rooms: seq<int>, list: seq<SchedulePolicy>)
    requires |rooms| == |instances| && list != []
    ensures Sum(Served(instances, list, 0, 0)) == 0 && RoomsBefore(instances, rooms, list, 0, 0) == rooms
  {
    assert list[..0] == [];
    ZeroSum(Served(instances, list, 0, 0));
  }

  lemma GivenIsNotNegative(o: RoleOrder)
    requires FirstFull(o)
    ensures GivenBeforeFull(o) >= 0
  {
    var due := Due(o, o.rooms[o.j], o.p, o.j);
    var zeros := seq(|due|, _ => 0);
    ZeroSum(zeros);
    SumMonotone(zeros, due);
  }

  /** The end, when the first full cluster is known. */
  lemma EndAt(o: RoleOrder, rooms: seq<int>, p: nat, j: nat, rest: nat, asWritten: bool)
    requires FirstFull(o) && NoneNegative(o.rooms) && p < |o.list| && rest > 0
    requires |rooms| == |o.instances| && NoneNegative(rooms) && RoomsBefore(o.instances, rooms, o.list, p, j) == o.rooms
    ensures var left := rest + Sum(Served(o.instances, o.list, p, j)) - GivenBeforeFull(o);
      EndOf(o.instances, rooms, o.list, p, j, rest, asWritten)
        == if left <= 0 then AllGiven else AfterFull(o, left, asWritten)
  {
    hide AfterFull, GivenBeforeFull, Served, RoomsBefore;
    assert Carried(o.instances, o.list[o.p].role);
    var full := OrderToFull(o.instances, o.rooms, o.list);
    assert full == o.(p := full.p, j := full.j);
    FirstFullUnique(o, full.p, full.j);
  }

  /** From the front: everything is given out if `rest` does not outlast the first full cluster. */
  lemma EndAtFront(o: RoleOrder, rest: nat, asWritten: bool)
    requires FirstFull(o) && NoneNegative(o.rooms)
    ensures EndOf(o.instances, o.rooms, o.list, 0, 0, rest, asWritten)
      == if rest <= GivenBeforeFull(o) then AllGiven else AfterFull(o, rest - GivenBeforeFull(o), asWritten)
  {
    hide AfterFull, GivenBeforeFull, Served, RoomsBefore;
    GivenIsNotNegative(o);
    ServedAtFront(o.instances, o.rooms, o.list);
    if rest > 0 {
      EndAt(o, o.rooms, 0, 0, rest, asWritten);
    }
  }
}
