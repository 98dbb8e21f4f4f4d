/** The order in which the role round robin serves the clusters, up to the first one found full.

    A pass through the sorted list serves every cluster with a listed role once, role by role and in the
    order of the clusters within a role. So long as nobody is full no role leaves the list, and every pass
    is the same. */
module RoleTurns {
  import opened Sums
  import opened Policies
  import opened RoundRobin
  import opened RoleRoundRobin

  /** Every cluster's policy and room at the start, the sorted list, and the entry p and cluster j
      where the first full cluster is met. */
  datatype RoleOrder = RoleOrder(instances: seq<SchedulePolicy>, rooms: seq<int>, list: seq<SchedulePolicy>,
                                 p: nat, j: nat)

  predicate Lists(list: seq<SchedulePolicy>, role: string) {
    exists q :: 0 <= q < |list| && list[q].role == role
  }

  /** A pass that has got to cluster j in the turn of entry p has served cluster k. */
  predicate ServedBefore(o: RoleOrder, k: nat, p: nat, j: nat)
    requires k < |o.instances| && p < |o.list|
  {
    Lists(o.list[..p], o.instances[k].role) || (o.instances[k].role == o.list[p].role && k < j)
  }

  /** What every cluster has got when pass c has come there; nothing if its role is not on the list. */
  function Due(o: RoleOrder, c: nat, p: nat, j: nat): (r: seq<int>)
    requires p < |o.list|
    ensures |r| == |o.instances|
    ensures forall k :: 0 <= k < |r| ==> r[k] == DueTo(o, c, p, j, k)
  {
    seq(|o.instances|, k requires 0 <= k < |o.instances| => DueTo(o, c, p, j, k))
  }

  function DueTo(o: RoleOrder, c: nat, p: nat, j: nat, k: nat): nat
    requires p < |o.list| && k < |o.instances|
  {
    if !Lists(o.list, o.instances[k].role) then 0 else if ServedBefore(o, k, p, j) then c + 1 else c
  }

  /** The cluster at (p, j) has the least room of those whose role is listed, and is the first with so little
      that a pass serves. */
  predicate FirstFull(o: RoleOrder) {
    && o.p < |o.list| && o.j < |o.instances| == |o.rooms| && o.instances[o.j].role == o.list[o.p].role
    && forall k :: 0 <= k < |o.rooms| && Lists(o.list, o.instances[k].role) ==>
         o.rooms[k] >= o.rooms[o.j] >= 0 && (ServedBefore(o, k, o.p, o.j) ==> o.rooms[k] > o.rooms[o.j])
  }

  /** How many replicas are given out before a full cluster is met. */
  function GivenBeforeFull(o: RoleOrder): int
    requires FirstFull(o)
  {
    Sum(Due(o, o.rooms[o.j], o.p, o.j))
  }

  predicate AllListed(instances: seq<SchedulePolicy>, list: seq<SchedulePolicy>) {
    forall k :: 0 <= k < |instances| ==> Lists(list, instances[k].role)
  }

  ghost predicate Valid(o: RoleOrder) {
    FirstFull(o) && DistinctRoles(o.list)
  }

  /** Pass c, the turn of entry p, cluster j come not later than where the full cluster is met. */
  predicate InTime(o: RoleOrder, c: nat, p: nat, j: nat)
    requires FirstFull(o)
  {
    c < o.rooms[o.j] || (c == o.rooms[o.j] && (p < o.p || (p == o.p && j <= o.j)))
  }

  // ---------- the run so far ----------

  ghost predicate RoomsDue(o: RoleOrder, up: bool, c: nat, p: nat, j: nat, s: State)
    requires |s.replicas| == |o.instances| == |o.rooms| && p < |o.list|
  {
    forall k :: 0 <= k < |o.instances| ==>
      Room(o.instances[k], s.replicas[k], up) == o.rooms[k] - Due(o, c, p, j)[k]
  }

  /** Nobody has left the list, and everybody has got what is due. `owed` were to be given out at first. */
  ghost predicate InPass(o: RoleOrder, up: bool, owed: int, c: nat, p: nat, j: nat, s: State) {
    && Valid(o) && RoleWf(o.instances, up, s) && p < |o.list| && j <= |o.instances|
    && s.list == o.list && s.idx == p && RoomsDue(o, up, c, p, j, s)
    && s.add == owed - Sum(Due(o, c, p, j))
  }

  lemma ListsPrefix(list: seq<SchedulePolicy>, p: nat, role: string)
    requires p < |list|
    ensures Lists(list[..p + 1], role) <==> Lists(list[..p], role) || list[p].role == role
  {
    if Lists(list[..p], role) {
      var q :| 0 <= q < p && list[..p][q].role == role;
      assert list[..p + 1][q].role == role;
    }
    if list[p].role == role {
      assert list[..p + 1][p].role == role;
    }
    if Lists(list[..p + 1], role) && list[p].role != role {
      var q :| 0 <= q < p + 1 && list[..p + 1][q].role == role;
      assert list[..p][q].role == role;
    }
  }

  lemma ListsMore(list: seq<SchedulePolicy>, p: nat, q: nat, role: string)
    requires p < q <= |list| && (Lists(list[..p], role) || list[p].role == role)
    ensures Lists(list[..q], role)
  {
    if list[p].role == role {
      assert list[..q][p].role == role;
    } else {
      var i :| 0 <= i < p && list[..p][i].role == role;
      assert list[..q][i].role == role;
    }
  }

  lemma NotYetServed(o: RoleOrder, p: nat, j: nat)
    requires DistinctRoles(o.list) && p < |o.list| && j < |o.instances| && o.instances[j].role == o.list[p].role
    ensures !ServedBefore(o, j, p, j)
  {
    forall q | 0 <= q < p ensures o.list[..p][q].role != o.instances[j].role {
      assert o.list[q].role != o.list[p].role;
    }
  }

  lemma DueOther(o: RoleOrder, c: nat, p: nat, j: nat)
    requires p < |o.list| && j < |o.instances| && o.instances[j].role != o.list[p].role
    ensures Due(o, c, p, j + 1) == Due(o, c, p, j)
  {
    forall k | 0 <= k < |o.instances| ensures ServedBefore(o, k, p, j + 1) == ServedBefore(o, k, p, j) {
    }
  }

  lemma DueServed(o: RoleOrder, c: nat, p: nat, j: nat)
    requires DistinctRoles(o.list) && p < |o.list| && j < |o.instances| && o.instances[j].role == o.list[p].role
    ensures Due(o, c, p, j)[j] == c && Due(o, c, p, j + 1) == Due(o, c, p, j)[j := c + 1]
    ensures Sum(Due(o, c, p, j + 1)) == Sum(Due(o, c, p, j)) + 1
  {
    NotYetServed(o, p, j);
    assert Lists(o.list, o.instances[j].role);
    forall k | 0 <= k < |o.instances| && k != j ensures ServedBefore(o, k, p, j + 1) == ServedBefore(o, k, p, j) {
    }
    SumUpdate(Due(o, c, p, j), j, c + 1);
  }

  lemma DueNextTurn(o: RoleOrder, c: nat, p: nat)
    requires p + 1 < |o.list|
    ensures Due(o, c, p, |o.instances|) == Due(o, c, p + 1, 0)
  {
    forall k | 0 <= k < |o.instances| ensures ServedBefore(o, k, p, |o.instances|) == ServedBefore(o, k, p + 1, 0) {
      ListsPrefix(o.list, p, o.instances[k].role);
    }
  }

  lemma DueNextPass(o: RoleOrder, c: nat)
    requires o.list != []
    ensures Due(o, c, |o.list| - 1, |o.instances|) == Due(o, c + 1, 0, 0)
  {
    assert o.list[..|o.list|] == o.list && o.list[..0] == [];
    forall k | 0 <= k < |o.instances| && Lists(o.list, o.instances[k].role)
      ensures ServedBefore(o, k, |o.list| - 1, |o.instances|) && !ServedBefore(o, k, 0, 0)
    {
      ListsPrefix(o.list, |o.list| - 1, o.instances[k].role);
    }
  }

  /** Before the full cluster is met, less is due than when it is met. */
  lemma DueInTime(o: RoleOrder, c: nat, p: nat, j: nat)
    requires Valid(o) && p < |o.list| && j <= |o.instances|
    ensures InTime(o, c, p, j) ==> Sum(Due(o, c, p, j)) <= GivenBeforeFull(o)
    ensures !InTime(o, c, p, j) ==> Sum(Due(o, c, p, j)) >= GivenBeforeFull(o)
  {
    var due, full := Due(o, c, p, j), Due(o, o.rooms[o.j], o.p, o.j);
    forall k | 0 <= k < |o.instances|
      ensures if InTime(o, c, p, j) then due[k] <= full[k] else due[k] >= full[k]
    {
      if p < o.p && ServedBefore(o, k, p, j) {
        ListsMore(o.list, p, o.p, o.instances[k].role);
      }
      if o.p < p && ServedBefore(o, k, o.p, o.j) {
        ListsMore(o.list, o.p, p, o.instances[k].role);
      }
    }
    if InTime(o, c, p, j) {
      SumMonotone(due, full);
    } else {
      SumMonotone(full, due);
    }
  }

  // ---------- steps ----------

  lemma PassBy(o: RoleOrder, up: bool, owed: int, c: nat, p: nat, j: nat, s: State)
    requires InPass(o, up, owed, c, p, j, s) && j < |o.instances| && o.instances[j].role != o.list[p].role
    ensures InPass(o, up, owed, c, p, j + 1, s)
  {
    DueOther(o, c, p, j);
  }

  /** A cluster met before the full one, or another one, has room. */
  lemma HasRoom(o: RoleOrder, up: bool, owed: int, c: nat, p: nat, j: nat, s: State)
    requires InPass(o, up, owed, c, p, j, s) && InTime(o, c, p, j)
    requires j < |o.instances| && o.instances[j].role == o.list[p].role
    ensures Room(o.instances[j], s.replicas[j], up) == 0 <==> c == o.rooms[o.j] && p == o.p && j == o.j
    ensures Room(o.instances[j], s.replicas[j], up) >= 0
  {
    DueServed(o, c, p, j);
    assert Lists(o.list, o.instances[j].role) && Lists(o.list, o.instances[o.j].role);
    if c == o.rooms[o.j] && p < o.p {
      ListsMore(o.list, p, o.p, o.instances[j].role);
      assert ServedBefore(o, j, o.p, o.j);
    }
  }

  lemma Serve(o: RoleOrder, up: bool, owed: int, c: nat, p: nat, j: nat, s: State)
    requires InPass(o, up, owed, c, p, j, s) && s.add > 0 && j < |o.instances| && o.instances[j].role == o.list[p].role
    requires Room(o.instances[j], s.replicas[j], up) > 0
    ensures InPass(o, up, owed, c, p, j + 1, Grant(o.instances, up, s, j))
  {
    DueServed(o, c, p, j);
    GrantKeeps(o.instances, up, s, j);
    var t := Grant(o.instances, up, s, j);
    forall k | 0 <= k < |o.instances|
      ensures Room(o.instances[k], t.replicas[k], up) == o.rooms[k] - Due(o, c, p, j + 1)[k]
    {
    }
  }

  lemma NextTurn(o: RoleOrder, up: bool, owed: int, c: nat, p: nat, s: State)
    requires InPass(o, up, owed, c, p, |o.instances|, s)
    ensures p + 1 < |o.list| ==> InPass(o, up, owed, c, p + 1, 0, Turn(s))
    ensures p + 1 == |o.list| ==> InPass(o, up, owed, c + 1, 0, 0, Turn(s))
  {
    TurnKeeps(o.instances, up, s);
    if p + 1 < |o.list| {
      DueNextTurn(o, c, p);
    } else {
      DueNextPass(o, c);
    }
  }

  /** A cluster that is not the full one is passed by or served. */
  lemma SweepStep(o: RoleOrder, up: bool, owed: int, c: nat, p: nat, j: nat, s: State, asWritten: bool)
    returns (t: State)
    requires InPass(o, up, owed, c, p, j, s) && InTime(o, c, p, j) && s.add > 0 && j < |o.instances|
    requires !(c == o.rooms[o.j] && p == o.p && j == o.j)
    ensures InPass(o, up, owed, c, p, j + 1, t) && InTime(o, c, p, j + 1)
    ensures RoleSweep(o.instances, up, s, j, asWritten) == RoleSweep(o.instances, up, t, j + 1, asWritten)
  {
    if o.instances[j].role != o.list[p].role {
      PassBy(o, up, owed, c, p, j, s);
      t := s;
    } else {
      HasRoom(o, up, owed, c, p, j, s);
      Serve(o, up, owed, c, p, j, s);
      t := Grant(o.instances, up, s, j);
    }
  }

  // ---------- the run to the first full cluster ----------

  /** The rest of the run from the middle of a sweep. */
  ghost function RunFrom(instances: seq<SchedulePolicy>, up: bool, s: State, j: nat, asWritten: bool): RoleStep
    requires RoleWf(instances, up, s) && j <= |instances|
  {
    RoleSweepKeeps(instances, up, s, j, asWritten);
    var r := RoleSweep(instances, up, s, j, asWritten);
    if r.Next? then RoleRounds(instances, up, r.state, asWritten) else r
  }

  lemma FullIsCarried(o: RoleOrder)
    requires Valid(o)
    ensures AnyCarried(o.instances, o.list, 0)
  {
    assert Carried(o.instances, o.list[o.p].role);
  }

  /** At the end of a sweep the loop takes the next turn of the list. */
  lemma RunTurns(instances: seq<SchedulePolicy>, up: bool, s: State, asWritten: bool)
    requires RoleWf(instances, up, s) && s.add > 0 && AnyCarried(instances, s.list, 0)
    ensures RoleWf(instances, up, Turn(s))
    ensures RoleRounds(instances, up, s, asWritten) == RunFrom(instances, up, Turn(s), 0, asWritten)
    ensures RunFrom(instances, up, s, |instances|, asWritten) == RunFrom(instances, up, Turn(s), 0, asWritten)
  {
    TurnKeeps(instances, up, s);
    SweepProgress(instances, up, s, asWritten);
  }

  lemma NextTurnInTime(o: RoleOrder, up: bool, owed: int, c: nat, p: nat, s: State) returns (d: nat, q: nat)
    requires InPass(o, up, owed, c, p, |o.instances|, s) && InTime(o, c, p, |o.instances|)
    ensures InPass(o, up, owed, d, q, 0, Turn(s)) && InTime(o, d, q, 0)
    ensures d > c || (d == c && q > p)
  {
    NextTurn(o, up, owed, c, p, s);
    if p + 1 < |o.list| {
      d, q := c, p + 1;
    } else {
      d, q := c + 1, 0;
    }
  }

  /** The run gives out everything before the full cluster is met, or it gets there: then it goes on from the
      state t in which everybody has got what is due. */
  ghost predicate GetsTo(o: RoleOrder, up: bool, owed: int, asWritten: bool, r: RoleStep, t: State)
    requires Valid(o)
  {
    if owed <= GivenBeforeFull(o) then r.Returned? && r.state.add == 0
    else
      && InPass(o, up, owed, o.rooms[o.j], o.p, o.j, t) && t.add == owed - GivenBeforeFull(o)
      && r == RunFrom(o.instances, up, t, o.j, asWritten)
  }

  /** Where a pass can be, without its counts. */
  lemma InPassPlace(o: RoleOrder, up: bool, owed: int, c: nat, p: nat, j: nat, s: State)
    requires InPass(o, up, owed, c, p, j, s) && InTime(o, c, p, j)
    ensures Valid(o) && RoleWf(o.instances, up, s) && s.list == o.list && s.add >= 0
    ensures p < |o.list| && o.j < |o.rooms| && c <= o.rooms[o.j]
  {
  }

  lemma ReachedFull(o: RoleOrder, up: bool, owed: int, c: nat, p: nat, j: nat, s: State, asWritten: bool)
    requires InPass(o, up, owed, c, p, j, s) && InTime(o, c, p, j)
    requires s.add == 0 || (c == o.rooms[o.j] && p == o.p && j == o.j)
    ensures GetsTo(o, up, owed, asWritten, RunFrom(o.instances, up, s, j, asWritten), s)
  {
    DueInTime(o, c, p, j);
  }

  lemma RunSteps(o: RoleOrder, up: bool, owed: int, c: nat, p: nat, j: nat, s: State, t: State, asWritten: bool)
    requires InPass(o, up, owed, c, p, j, s) && InPass(o, up, owed, c, p, j + 1, t)
    requires RoleSweep(o.instances, up, s, j, asWritten) == RoleSweep(o.instances, up, t, j + 1, asWritten)
    ensures RunFrom(o.instances, up, s, j, asWritten) == RunFrom(o.instances, up, t, j + 1, asWritten)
  {
  }

  lemma {:induction false} ReachFull(o: RoleOrder, up: bool, owed: int, c: nat, p: nat, j: nat, s: State,
                                     asWritten: bool)
    returns (t: State)
    requires Valid(o) && o.j < |o.rooms|
    requires InPass(o, up, owed, c, p, j, s) && InTime(o, c, p, j) && j <= |o.instances|
    ensures GetsTo(o, up, owed, asWritten, RunFrom(o.instances, up, s, j, asWritten), t)
    decreases o.rooms[o.j] - c, |o.list| - p, |o.instances| - j
  {
    hide *;
    InPassPlace(o, up, owed, c, p, j, s);
    if s.add == 0 || (c == o.rooms[o.j] && p == o.p && j == o.j) {
      t := s;
      ReachedFull(o, up, owed, c, p, j, s, asWritten);
    } else if j == |o.instances| {
      FullIsCarried(o);
      RunTurns(o.instances, up, s, asWritten);
      var d, q := NextTurnInTime(o, up, owed, c, p, s);
      t := ReachFull(o, up, owed, d, q, 0, Turn(s), asWritten);
    } else {
      var u := SweepStep(o, up, owed, c, p, j, s, asWritten);
      RunSteps(o, up, owed, c, p, j, s, u, asWritten);
      t := ReachFull(o, up, owed, c, p, j + 1, u, asWritten);
    }
  }

  lemma {:induction false} ZeroSum(s: seq<int>)
    requires forall i :: 0 <= i < |s| ==> s[i] == 0
    ensures Sum(s) == 0
  {
    if s != [] {
      ZeroSum(s[1..]);
    }
  }

  // ---------- there is a first full cluster ----------

  lemma LeastRoom(instances: seq<SchedulePolicy>, rooms: seq<int>, list: seq<SchedulePolicy>) returns (j: nat)
    requires |rooms| == |instances| && AnyCarried(instances, list, 0)
    ensures j < |rooms| && Lists(list, instances[j].role)
    ensures forall k :: 0 <= k < |rooms| && Lists(list, instances[k].role) ==> rooms[k] >= rooms[j]
  {
    var q :| 0 <= q < |list| && Carried(instances, list[q].role);
    j :| 0 <= j < |instances| && instances[j].role == list[q].role;
    for i := 0 to |rooms|
      invariant j < |rooms| && Lists(list, instances[j].role)
      invariant forall k :: 0 <= k < i && Lists(list, instances[k].role) ==> rooms[k] >= rooms[j]
    {
      if Lists(list, instances[i].role) && rooms[i] < rooms[j] {
        j := i;
      }
    }
  }

  /** From a cluster with the least room to the first such one. */
  lemma {:induction false} FirstLeast(o: RoleOrder) returns (p: nat, j: nat)
    requires o.p < |o.list| && o.j < |o.instances| == |o.rooms| && o.instances[o.j].role == o.list[o.p].role
    requires forall k :: 0 <= k < |o.rooms| && Lists(o.list, o.instances[k].role) ==>
      o.rooms[k] >= o.rooms[o.j] >= 0
    ensures FirstFull(o.(p := p, j := j))
    decreases o.p, o.j
  {
    p, j := o.p, o.j;
    if k :| 0 <= k < |o.rooms| && ServedBefore(o, k, o.p, o.j) && o.rooms[k] == o.rooms[o.j] {
      if Lists(o.list[..o.p], o.instances[k].role) {
        var q :| 0 <= q < o.p && o.list[..o.p][q].role == o.instances[k].role;
        assert o.list[q].role == o.instances[k].role;
        p, j := FirstLeast(o.(p := q, j := k));
      } else {
        p, j := FirstLeast(o.(j := k));
      }
    }
  }

  lemma FirstFullExists(instances: seq<SchedulePolicy>, rooms: seq<int>, list: seq<SchedulePolicy>)
    returns (p: nat, j: nat)
    requires |rooms| == |instances| && AnyCarried(instances, list, 0)
    requires forall k :: 0 <= k < |rooms| ==> rooms[k] >= 0
    ensures FirstFull(RoleOrder(instances, rooms, list, p, j))
  {
    j := LeastRoom(instances, rooms, list);
    p :| 0 <= p < |list| && list[p].role == instances[j].role;
    p, j := FirstLeast(RoleOrder(instances, rooms, list, p, j));
  }
}
