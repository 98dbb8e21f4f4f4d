/** Inputs on which the role scheduler panics, never ends, or places too few. */
module RoleExamples {
  import opened Sums
  import opened Policies
  import opened RoundRobin
  import opened WeightedScheduler
  import opened RoleRoundRobin
  import opened RoleTurns
  import opened RoleEnd
  import opened RoleScheduler

  /** A main role of twice the weight and a small standby; the standby cluster is listed first. */
  predicate StandbyFirst(policies: seq<SchedulePolicy>, clusters: seq<ClusterSetTarget>) {
    && policies == [SchedulePolicy("", "main", 2, 0, 20), SchedulePolicy("", "standby", 1, 0, 1)]
    && clusters == [ClusterSetTarget("a", "standby"), ClusterSetTarget("b", "main")]
  }

  lemma StandbyShares(policies: seq<SchedulePolicy>, clusters: seq<ClusterSetTarget>, replicas: int)
    requires StandbyFirst(policies, clusters) && replicas == 15
    ensures Instances(policies, clusters) == [policies[1], policies[0]]
    ensures RoleShares(FloorShare, replicas, policies, clusters) == [1, 10]
  {
    assert policies[1..][0] == policies[1] && policies[1..][1..] == [];
    var main, standby := MatchTerms(policies[0], clusters, WeightOf()), MatchTerms(policies[1], clusters, WeightOf());
    assert main == [0, 2] && standby == [1, 0];
    SumOfTwo(0, 2);
    SumOfTwo(1, 0);
    assert PairSum(policies[1..][1..], clusters, WeightOf()) == 0;
    assert PairSum(policies[1..], clusters, WeightOf()) == 1;
    assert PairSum(policies, clusters, WeightOf()) == 3;
    assert FloorShare(replicas, 3, 1) == 15 / 3 == 5 && FloorShare(replicas, 3, 2) == 30 / 3 == 10;
    StandbyInstances(policies);
  }

  lemma StandbyInstances(policies: seq<SchedulePolicy>)
    requires |policies| == 2 && policies[0].role == "main" && policies[1].role == "standby"
    ensures InstanceFor(policies, "standby") == policies[1] && InstanceFor(policies, "main") == policies[0]
    ensures HasRole(policies, "standby") && HasRole(policies, "main")
  {
    assert policies[1..][0] == policies[1] && policies[0].role[0] != policies[1].role[0];
  }

  lemma SumOfTwo(a: int, b: int)
    ensures Sum([a, b]) == a + b
  {
    assert [a, b][1..] == [b];
    SumOfOne(b);
  }

  lemma StandbyRest(policies: seq<SchedulePolicy>, base: seq<int>, owed: nat, list: seq<SchedulePolicy>)
    requires |policies| == 2 && policies[0].max == 1 && policies[1].max == 20 && base == [1, 10] && owed == 4
    ensures var s := RoleFilled(policies, base, true, owed, list);
      s.add == 2 && RoomsOf(policies, true, s.replicas) == [0, 8]
  {
    assert EvenPart(owed, 2) == EvenPart(owed - 2, 2) + 1 == EvenPart(owed - 4, 2) + 2 == 2;
    assert LeftOver(owed, 2) == LeftOver(owed - 2, 2) == LeftOver(owed - 4, 2) == 0;
    assert Shorts(policies, base, true, 2) == [2, 0];
    SumOfTwo(2, 0);
  }

  lemma StandbyFull(instances: seq<SchedulePolicy>, list: seq<SchedulePolicy>)
    requires |instances| == |list| == 2 && list == [instances[1], instances[0]]
      && instances[0].role != instances[1].role
    ensures var o := RoleOrder(instances, [0, 8], list, 1, 0);
      FirstFull(o) && NoneNegative(o.rooms) && GivenBeforeFull(o) == 1 && AfterFull(o, 1, true).Panics?
  {
    var o := RoleOrder(instances, [0, 8], list, 1, 0);
    assert list[..1][0].role == instances[1].role;
    assert list[1].role == instances[0].role;
    assert ServedBefore(o, 1, 1, 0) && !ServedBefore(o, 0, 1, 0);
    assert Due(o, 0, 1, 0) == [0, 1];
    SumOfTwo(0, 1);
  }

  /** Fifteen replicas over a standby of at most one, listed first, and a main cluster of at most twenty: step one
      gives 1 and 10, and step two reads the list at -1 instead of placing the other four. */
  lemma StandbyFirstPanics(policies: seq<SchedulePolicy>, clusters: seq<ClusterSetTarget>, replicas: int)
    requires StandbyFirst(policies, clusters) && replicas == 15
    ensures IsSortOf(policies, policies)
    ensures RoleSpread(Instances(policies, clusters), RoleShares(FloorShare, replicas, policies, clusters), replicas,
      policies, true) == IndexPanic
  {
    StandbyShares(policies, clusters, replicas);
    var instances, base := [policies[1], policies[0]], [1, 10];
    SumOfTwo(1, 10);
    StandbyRest(instances, base, 4, policies);
    StandbyFull(instances, policies);
    EndAtFront(RoleOrder(instances, [0, 8], policies, 1, 0), 2, true);
    RoleEndExact(instances, base, replicas, policies, true);
  }

  /** A main role with one cluster of at most five, and a spare role that no cluster has. */
  predicate SpareRole(policies: seq<SchedulePolicy>, clusters: seq<ClusterSetTarget>) {
    && policies == [SchedulePolicy("", "main", 2, 0, 5), SchedulePolicy("", "spare", 1, 0, 5)]
    && clusters == [ClusterSetTarget("a", "main")]
  }

  lemma SpareShares(policies: seq<SchedulePolicy>, clusters: seq<ClusterSetTarget>, replicas: int)
    requires SpareRole(policies, clusters) && replicas == 10
    ensures Instances(policies, clusters) == [policies[0]]
    ensures RoleShares(FloorShare, replicas, policies, clusters) == [5]
  {
    assert policies[1..][0] == policies[1] && policies[1..][1..] == [];
    assert MatchTerms(policies[0], clusters, WeightOf()) == [2] && MatchTerms(policies[1], clusters, WeightOf()) == [0];
    SumOfOne(2);
    SumOfOne(0);
    assert PairSum(policies[1..][1..], clusters, WeightOf()) == 0;
    assert PairSum(policies[1..], clusters, WeightOf()) == 0;
    assert PairSum(policies, clusters, WeightOf()) == 2;
    var f := ShareOf(FloorShare, replicas, 2);
    assert f(policies[0]) == 10;
    assert HasRole(policies, policies[0].role);
  }

  /** One cluster of at most ten, and two policies for its role. */
  predicate RoleTwice(policies: seq<SchedulePolicy>, clusters: seq<ClusterSetTarget>) {
    && policies == [SchedulePolicy("", "main", 1, 0, 10), SchedulePolicy("", "main", 1, 0, 10)]
    && clusters == [ClusterSetTarget("a", "main")]
  }

  /** Ten replicas are asked for and there is room for them, but the cluster gets five: its weight counts twice
      and its share once. */
  lemma RoleTwiceHalves(policies: seq<SchedulePolicy>, clusters: seq<ClusterSetTarget>, replicas: int)
    requires RoleTwice(policies, clusters) && replicas == 10
    ensures IsSortOf(policies, policies)
    ensures var r := RoleSpread(Instances(policies, clusters), RoleShares(FloorShare, replicas, policies, clusters),
        RoleAim(FloorShare, replicas, policies, clusters), policies, true);
      r.Returned? && r.state.replicas == [5]
  {
    PairSumTwice(policies, clusters, WeightOf());
    SumOfOne(1);
    var f := ShareOf(FloorShare, replicas, 2);
    assert f(policies[0]) == 5;
    PairSumTwice(policies, clusters, f);
    assert HasRole(policies, "main");
    assert OwnTerms(policies, clusters, f) == [5] && RoleShares(FloorShare, replicas, policies, clusters) == [5];
    SumOfOne(5);
  }

  lemma PairSumTwice(policies: seq<SchedulePolicy>, clusters: seq<ClusterSetTarget>, f: SchedulePolicy -> int)
    requires RoleTwice(policies, clusters)
    ensures PairSum(policies, clusters, f) == 2 * f(policies[0])
  {
    assert policies[1..][0] == policies[0] && policies[1..][1..] == [];
    assert MatchTerms(policies[0], clusters, f) == [f(policies[0])];
    SumOfOne(f(policies[0]));
    assert PairSum(policies[1..][1..], clusters, f) == 0;
    assert PairSum(policies[1..], clusters, f) == f(policies[0]);
  }

  lemma SumOfOne(a: int)
    ensures Sum([a]) == a
  {
    assert [a][1..] == [];
  }

  /** Ten replicas are asked for: step one gives the cluster its five, and step two goes on for ever. */
  lemma SpareRoleSpins(policies: seq<SchedulePolicy>, clusters: seq<ClusterSetTarget>, replicas: int)
    requires SpareRole(policies, clusters) && replicas == 10
    ensures IsSortOf(policies, policies)
    ensures RoleSpread(Instances(policies, clusters), RoleShares(FloorShare, replicas, policies, clusters), replicas,
      policies, true).Spins?
  {
    SpareShares(policies, clusters, replicas);
    var instances, base := [policies[0]], [5];
    assert Bounds(instances, true) == [5];
    SumOfOne(5);
    assert !Carried(instances, policies[1].role);
    RoleNeverReturns(instances, base, replicas, policies, true);
    RoleOutcome(instances, base, replicas, policies, true);
    OneClusterSpread(instances, base, replicas, policies);
  }

  /** With a single cluster nothing is left of a sweep when a role is dropped. */
  lemma OneClusterSpread(instances: seq<SchedulePolicy>, base: seq<int>, replicas: int, list: seq<SchedulePolicy>)
    requires |base| == |instances| == 1 && list != []
    ensures !RoleSpread(instances, base, replicas, list, true).IndexPanic?
  {
    if replicas != Sum(base) {
      RoleStart(instances, base, replicas, list);
      OneClusterNeverPanics(instances, replicas > Sum(base), RoleStepTwo(instances, base, replicas, list));
    }
  }

  lemma {:induction false} OneClusterNeverPanics(instances: seq<SchedulePolicy>, up: bool, s: State)
    requires |instances| == 1 && RoleWf(instances, up, s)
    ensures !RoleRounds(instances, up, s, true).IndexPanic?
    decreases RoleMeasure(instances, up, s), TurnsLeft(instances, s)
  {
    if s.add != 0 && AnyCarried(instances, s.list, 0) {
      SweepProgress(instances, up, s, true);
      var r := RoleSweep(instances, up, Turn(s), 0, true);
      assert r.Next? ==> RoleWf(instances, up, r.state);
      if r.Next? {
        OneClusterNeverPanics(instances, up, r.state);
      }
    }
  }

  // ---------- the order of the clusters decides ----------

  /** A large role between two that take one replica each, listed by weight. */
  predicate ThreeRoles(policies: seq<SchedulePolicy>) {
    policies == [SchedulePolicy("", "a", 3, 0, 1), SchedulePolicy("", "b", 2, 0, 6), SchedulePolicy("", "c", 1, 0, 1)]
  }

  const CLUSTER_A := ClusterSetTarget("1", "a")
  const CLUSTER_B := ClusterSetTarget("2", "b")
  const CLUSTER_C := ClusterSetTarget("3", "c")

  lemma SumOfThreeRoles(policies: seq<SchedulePolicy>, clusters: seq<ClusterSetTarget>)
    requires ThreeRoles(policies)
    requires clusters == [CLUSTER_A, CLUSTER_B, CLUSTER_C] || clusters == [CLUSTER_A, CLUSTER_C, CLUSTER_B]
    ensures PairSum(policies, clusters, WeightOf()) == 6
  {
    assert policies[1..][0] == policies[1] && policies[1..][1..][0] == policies[2] && policies[1..][1..][1..] == [];
    assert MatchTerms(policies[0], clusters, WeightOf()) == [3, 0, 0];
    assert MatchTerms(policies[1], clusters, WeightOf()) == if clusters[1] == CLUSTER_B then [0, 2, 0] else [0, 0, 2];
    assert MatchTerms(policies[2], clusters, WeightOf()) == if clusters[1] == CLUSTER_B then [0, 0, 1] else [0, 1, 0];
    SumOfThree(3, 0, 0);
    SumOfThree(0, 2, 0);
    SumOfThree(0, 0, 2);
    SumOfThree(0, 0, 1);
    SumOfThree(0, 1, 0);
    assert PairSum(policies[1..][1..][1..], clusters, WeightOf()) == 0;
    assert PairSum(policies[1..][1..], clusters, WeightOf()) == 1;
    assert PairSum(policies[1..], clusters, WeightOf()) == 3;
  }

  /** The counts after step one. */
  lemma ThreeShares(policies: seq<SchedulePolicy>, clusters: seq<ClusterSetTarget>, replicas: int)
    requires ThreeRoles(policies) && replicas == 8
    requires clusters == [CLUSTER_A, CLUSTER_B, CLUSTER_C] || clusters == [CLUSTER_A, CLUSTER_C, CLUSTER_B]
    ensures Instances(policies, clusters)
      == if clusters[1] == CLUSTER_B then policies else [policies[0], policies[2], policies[1]]
    ensures RoleShares(FloorShare, replicas, policies, clusters)
      == if clusters[1] == CLUSTER_B then [1, 2, 1] else [1, 1, 2]
  {
    hide PairSum, MatchTerms;
    SumOfThreeRoles(policies, clusters);
    var f := ShareOf(FloorShare, replicas, 6);
    assert FloorShare(replicas, 6, 3) == 24 / 6 == 4 && FloorShare(replicas, 6, 2) == 16 / 6 == 2;
    assert FloorShare(replicas, 6, 1) == 8 / 6 == 1;
    assert f(policies[0]) == 4 && f(policies[1]) == 2 && f(policies[2]) == 1;
    ThreeInstances(policies);
    var r := RoleShares(FloorShare, replicas, policies, clusters);
    assert r[0] == ClampTwice(4, 0, 1);
  }

  lemma ThreeInstances(policies: seq<SchedulePolicy>)
    requires ThreeRoles(policies)
    ensures HasRole(policies, "a") && InstanceFor(policies, "a") == policies[0]
    ensures HasRole(policies, "b") && InstanceFor(policies, "b") == policies[1]
    ensures HasRole(policies, "c") && InstanceFor(policies, "c") == policies[2]
  {
    assert policies[0].role[0] == 'a' && policies[1].role[0] == 'b' && policies[2].role[0] == 'c';
    var rest := policies[1..];
    assert rest[0] == policies[1] && rest[1..][0] == policies[2];
    assert InstanceFor(rest[1..], "c") == policies[2];
    assert InstanceFor(rest, "c") == policies[2] && InstanceFor(rest, "b") == policies[1];
  }

  /** One each, and three are left over. */
  lemma ThreeFilled(instances: seq<SchedulePolicy>, base: seq<int>, owed: nat, list: seq<SchedulePolicy>)
    requires |instances| == |base| == 3 && owed == 4
    requires forall k :: 0 <= k < 3 ==> instances[k].max == if base[k] == 2 then 6 else 1
    requires base == [1, 2, 1] || base == [1, 1, 2]
    ensures var s := RoleFilled(instances, base, true, owed, list);
      s.add == 3 && RoomsOf(instances, true, s.replicas) == if base[1] == 2 then [0, 3, 0] else [0, 0, 3]
  {
    assert EvenPart(owed, 3) == EvenPart(owed - 3, 3) + 1 == 1 && LeftOver(owed, 3) == LeftOver(owed - 3, 3) == 1;
    var filled := Filled(instances, base, true, 1);
    assert filled == if base[1] == 2 then [1, 3, 1] else [1, 1, 3];
    assert Shorts(instances, base, true, 1) == if base[1] == 2 then [1, 0, 1] else [1, 1, 0];
    SumOfThree(1, 0, 1);
    SumOfThree(1, 1, 0);
  }

  /** The first role leaves the list at once, and the sweep goes on with the second one. */
  lemma FirstRoleLeaves(o: RoleOrder, rest: nat)
    requires |o.instances| == |o.rooms| && |o.list| > 1 && o.p == o.j == 0 && NoneNegative(o.rooms) && rest > 0
    requires o.instances != [] && o.rooms[0] == 0 && o.instances[0].role == o.list[0].role
    ensures EndOf(o.instances, o.rooms, o.list, 0, 0, rest, true)
      == EndOf(o.instances, o.rooms, o.list[1..], 0, 1, rest, true)
  {
    hide EndOf, FirstFull, GivenBeforeFull;
    NothingGivenYet(o);
    EndAtFront(o, rest, true);
    assert RemoveAt(o.list, 0) == o.list[1..];
  }

  lemma NothingGivenYet(o: RoleOrder)
    requires |o.instances| == |o.rooms| && o.list != [] && o.p == o.j == 0 && NoneNegative(o.rooms)
    requires o.instances != [] && o.rooms[0] == 0 && o.instances[0].role == o.list[0].role
    ensures FirstFull(o) && GivenBeforeFull(o) == 0 && RoomsAtFull(o) == o.rooms
  {
    assert o.list[..o.p] == [];
    ZeroSum(Due(o, o.rooms[o.j], o.p, o.j));
  }

  /** A sweep that goes on at the second cluster has served nobody of the new entry. */
  lemma NoneServedYet(instances: seq<SchedulePolicy>, rooms: seq<int>, list: seq<SchedulePolicy>)
    requires |instances| == |rooms| > 0 && list != [] && instances[0].role != list[0].role
    ensures Sum(Served(instances, list, 0, 1)) == 0 && RoomsBefore(instances, rooms, list, 0, 1) == rooms
  {
    assert list[..0] == [];
    ZeroSum(Served(instances, list, 0, 1));
  }

  /** What is left of the list: the large role and the last one, whose cluster is full and stands at `at`. */
  lemma LastRoleFull(instances: seq<SchedulePolicy>, rooms: seq<int>, list: seq<SchedulePolicy>, at: nat)
    requires |instances| == |rooms| == 3 && |list| == 2 && list[0].role != list[1].role && 1 <= at <= 2
    requires instances[at].role == list[1].role && instances[3 - at].role == list[0].role
    requires instances[0].role != list[0].role && instances[0].role != list[1].role
    requires rooms[0] == rooms[at] == 0 && rooms[3 - at] > 0
    ensures var o := RoleOrder(instances, rooms, list, 1, at);
      FirstFull(o) && GivenBeforeFull(o) == 1 && RoomsAtFull(o) == rooms[3 - at := rooms[3 - at] - 1]
  {
    var o := RoleOrder(instances, rooms, list, 1, at);
    assert list[..1][0] == list[0];
    assert Due(o, 0, 1, at) == if at == 2 then [0, 1, 0] else [0, 0, 1];
    SumOfThree(0, 1, 0);
    SumOfThree(0, 0, 1);
  }

  /** With the last role's cluster last, the large role takes the rest. */
  lemma LastClusterLast(instances: seq<SchedulePolicy>, rooms: seq<int>, list: seq<SchedulePolicy>, rest: nat)
    requires |instances| == 3 && rooms == [0, 3, 0] && rest == 3
    requires |list| == 2 && list[0].role == instances[1].role && list[1].role == instances[2].role
    requires forall i, j :: 0 <= i < j < 3 ==> instances[i].role != instances[j].role
    ensures EndOf(instances, rooms, list, 0, 1, rest, true).AllGiven?
  {
    hide EndOf, FirstFull, GivenBeforeFull, RoomsAtFull;
    var o := RoleOrder(instances, rooms, list, 1, 2);
    LastRoleFull(instances, rooms, list, 2);
    NoneServedYet(instances, rooms, list);
    EndAt(o, rooms, 0, 1, rest, true);
    assert RemoveAt(list, 1) == [list[0]] && rooms[1 := rooms[1] - 1] == [0, 2, 0];
    LargeRoleAlone(instances, [0, 2, 0], [list[0]], 2);
  }

  lemma LargeRoleAlone(instances: seq<SchedulePolicy>, rooms: seq<int>, list: seq<SchedulePolicy>, rest: nat)
    requires |instances| == 3 && rooms == [0, 2, 0] && rest == 2 && |list| == 1 && list[0].role == instances[1].role
    requires instances[0].role != list[0].role && instances[2].role != list[0].role
    ensures EndOf(instances, rooms, list, 0, 0, rest, true).AllGiven?
  {
    hide EndOf, AfterFull;
    var o := RoleOrder(instances, rooms, list, 0, 1);
    assert list[..0] == [];
    assert FirstFull(o) && Due(o, 2, 0, 1) == [0, 2, 0];
    SumOfThree(0, 2, 0);
    EndAtFront(o, rest, true);
  }

  /** With the large role's cluster behind it, the list is read at -1. */
  lemma LastClusterBetween(instances: seq<SchedulePolicy>, rooms: seq<int>, list: seq<SchedulePolicy>, rest: nat)
    requires |instances| == 3 && rooms == [0, 0, 3] && rest == 3
    requires |list| == 2 && list[0].role == instances[2].role && list[1].role == instances[1].role
    requires forall i, j :: 0 <= i < j < 3 ==> instances[i].role != instances[j].role
    ensures EndOf(instances, rooms, list, 0, 1, rest, true).Panics?
  {
    hide EndOf, FirstFull, GivenBeforeFull, RoomsAtFull;
    var o := RoleOrder(instances, rooms, list, 1, 1);
    LastRoleFull(instances, rooms, list, 1);
    NoneServedYet(instances, rooms, list);
    EndAt(o, rooms, 0, 1, rest, true);
  }

  /** The end of step two for three roles, one cluster each, in either order of the last two. */
  lemma ThreeEnd(instances: seq<SchedulePolicy>, base: seq<int>, owed: nat, list: seq<SchedulePolicy>)
    requires ThreeRoles(list) && owed == 4
    requires if base == [1, 2, 1] then instances == list
             else base == [1, 1, 2] && instances == [list[0], list[2], list[1]]
    ensures var e := OwedEnd(instances, base, true, owed, list, true);
      if base == [1, 2, 1] then e.AllGiven? else e.Panics?
  {
    hide EndOf, RoleFilled;
    assert list[0].role[0] == 'a' && list[1].role[0] == 'b' && list[2].role[0] == 'c';
    ThreeFilled(instances, base, owed, list);
    var rooms := if base == [1, 2, 1] then [0, 3, 0] else [0, 0, 3];
    FirstRoleLeaves(RoleOrder(instances, rooms, list, 0, 0), 3);
    if base == [1, 2, 1] {
      LastClusterLast(instances, rooms, list[1..], 3);
    } else {
      LastClusterBetween(instances, rooms, list[1..], 3);
    }
  }

  /** All that fits. */
  lemma ThreeFull(policies: seq<SchedulePolicy>, counts: seq<int>)
    requires ThreeRoles(policies) && |counts| == 3 && WithinRanges(policies, counts) && Sum(counts) == 8
    ensures counts == [1, 6, 1]
  {
    assert counts == [counts[0], counts[1], counts[2]];
    SumOfThree(counts[0], counts[1], counts[2]);
  }

  lemma ThreeSpread(instances: seq<SchedulePolicy>, base: seq<int>, replicas: int, list: seq<SchedulePolicy>)
    requires ThreeRoles(list) && replicas == 8
    requires if base == [1, 2, 1] then instances == list
             else base == [1, 1, 2] && instances == [list[0], list[2], list[1]]
    ensures var r := RoleSpread(instances, base, replicas, list, true);
      if base == [1, 2, 1] then r.Returned? && r.state.replicas == [1, 6, 1] else r == IndexPanic
  {
    hide OwedEnd, RoleSpread;
    SumOfThree(1, 2, 1);
    SumOfThree(1, 1, 2);
    ThreeEnd(instances, base, 4, list);
    ThreeDistinct(list);
    RoleEndExact(instances, base, replicas, list, true);
    RoleOutcome(instances, base, replicas, list, true);
    if base == [1, 2, 1] {
      ThreeFull(list, RoleSpread(instances, base, replicas, list, true).state.replicas);
    }
  }

  lemma ThreeDistinct(policies: seq<SchedulePolicy>)
    requires ThreeRoles(policies)
    ensures DistinctRoles(policies) && IsSortOf(policies, policies)
  {
    assert policies[0].role[0] == 'a' && policies[1].role[0] == 'b' && policies[2].role[0] == 'c';
  }

  /** Eight replicas over three roles: with the clusters in the order of the roles they end as 1, 6, 1; with the last
      two exchanged the list is read at -1. */
  lemma ClusterOrderDecides(policies: seq<SchedulePolicy>, clusters: seq<ClusterSetTarget>, replicas: int)
    requires ThreeRoles(policies) && replicas == 8
    requires clusters == [CLUSTER_A, CLUSTER_B, CLUSTER_C] || clusters == [CLUSTER_A, CLUSTER_C, CLUSTER_B]
    ensures IsSortOf(policies, policies)
    ensures var r := RoleSpread(Instances(policies, clusters), RoleShares(FloorShare, replicas, policies, clusters),
        replicas, policies, true);
      if clusters[1] == CLUSTER_B then r.Returned? && r.state.replicas == [1, 6, 1] else r == IndexPanic
  {
    hide *;
    ThreeDistinct(policies);
    ThreeShares(policies, clusters, replicas);
    ThreeSpread(Instances(policies, clusters), RoleShares(FloorShare, replicas, policies, clusters), replicas,
      policies);
  }
}
