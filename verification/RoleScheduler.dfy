/** Spreading policy.Spec.Replicas over the clusters of a cluster set by role. */
module RoleScheduler {
  import opened Sums
  import opened Policies
  import opened RoundRobin
  import opened WeightedScheduler
  import opened RoleRoundRobin
  import opened RoleTurns
  import opened RoleEnd

  datatype ClusterSetTarget = ClusterSetTarget(name: string, role: string)

  /** The zero value a cluster gets when no policy names its role. */
  const NO_POLICY := SchedulePolicy("", "", 0, 0, 0)

  predicate HasRole(policies: seq<SchedulePolicy>, role: string) {
    exists i :: 0 <= i < |policies| && policies[i].role == role
  }

  /** The first policy with the role. */
  function InstanceFor(policies: seq<SchedulePolicy>, role: string): SchedulePolicy {
    if policies == [] then NO_POLICY
    else if policies[0].role == role then policies[0]
    else InstanceFor(policies[1..], role)
  }

  function Instances(policies: seq<SchedulePolicy>, clusters: seq<ClusterSetTarget>): (r: seq<SchedulePolicy>)
    ensures |r| == |clusters|
    ensures forall j :: 0 <= j < |clusters| ==> r[j] == InstanceFor(policies, clusters[j].role)
  {
    seq(|clusters|, j requires 0 <= j < |clusters| => InstanceFor(policies, clusters[j].role))
  }

  /** A cluster that is listed more than once is listed with the same role. */
  predicate OneRolePerName(clusters: seq<ClusterSetTarget>) {
    forall i, j :: 0 <= i < j < |clusters| && clusters[i].name == clusters[j].name ==>
      clusters[i].role == clusters[j].role
  }

  // ---------- step one ----------

  /** The sum over all pairs of a policy and a cluster with its role, policy by policy. */
  function PairSum(policies: seq<SchedulePolicy>, clusters: seq<ClusterSetTarget>, f: SchedulePolicy -> int): int {
    if policies == [] then 0
    else Sum(MatchTerms(policies[0], clusters, f)) + PairSum(policies[1..], clusters, f)
  }

  function MatchTerms(p: SchedulePolicy, clusters: seq<ClusterSetTarget>, f: SchedulePolicy -> int): (r: seq<int>)
    ensures |r| == |clusters|
    ensures forall j :: 0 <= j < |r| ==> r[j] == if clusters[j].role == p.role then f(p) else 0
  {
    seq(|clusters|, j requires 0 <= j < |clusters| => if clusters[j].role == p.role then f(p) else 0)
  }

  /** What one cluster contributes: its policy's value, nothing when no policy has its role. */
  function OwnTerm(policies: seq<SchedulePolicy>, role: string, f: SchedulePolicy -> int): int {
    if HasRole(policies, role) then f(InstanceFor(policies, role)) else 0
  }

  function OwnTerms(policies: seq<SchedulePolicy>, clusters: seq<ClusterSetTarget>,
                    f: SchedulePolicy -> int): (r: seq<int>)
    ensures |r| == |clusters|
    ensures forall j :: 0 <= j < |r| ==> r[j] == OwnTerm(policies, clusters[j].role, f)
  {
    seq(|clusters|, j requires 0 <= j < |clusters| => OwnTerm(policies, clusters[j].role, f))
  }

  lemma {:induction false} SumPointwise(a: seq<int>, b: seq<int>, c: seq<int>)
    requires |a| == |b| == |c| && forall j :: 0 <= j < |a| ==> a[j] == b[j] + c[j]
    ensures Sum(a) == Sum(b) + Sum(c)
  {
    if a != [] {
      SumPointwise(a[1..], b[1..], c[1..]);
    }
  }

  lemma {:induction false} SumOfZeros(a: seq<int>)
    requires forall j :: 0 <= j < |a| ==> a[j] == 0
    ensures Sum(a) == 0
  {
    if a != [] {
      SumOfZeros(a[1..]);
    }
  }

  lemma OwnTermStep(policies: seq<SchedulePolicy>, role: string, f: SchedulePolicy -> int)
    requires policies != [] && DistinctRoles(policies)
    ensures OwnTerm(policies, role, f)
      == (if policies[0].role == role then f(policies[0]) else 0) + OwnTerm(policies[1..], role, f)
  {
    if i :| 0 <= i < |policies| && policies[i].role == role {
      if i > 0 {
        assert policies[1..][i - 1].role == role;
      }
    }
  }

  /** Counting policy by policy is counting cluster by cluster through the first matching policy. */
  lemma {:induction false} PairSumByCluster(policies: seq<SchedulePolicy>, clusters: seq<ClusterSetTarget>,
                                            f: SchedulePolicy -> int)
    requires DistinctRoles(policies)
    ensures PairSum(policies, clusters, f) == Sum(OwnTerms(policies, clusters, f))
  {
    if policies == [] {
      SumOfZeros(OwnTerms(policies, clusters, f));
    } else {
      PairSumByCluster(policies[1..], clusters, f);
      forall j | 0 <= j < |clusters|
        ensures OwnTerms(policies, clusters, f)[j]
          == MatchTerms(policies[0], clusters, f)[j] + OwnTerms(policies[1..], clusters, f)[j]
      {
        OwnTermStep(policies, clusters[j].role, f);
      }
      SumPointwise(OwnTerms(policies, clusters, f), MatchTerms(policies[0], clusters, f),
        OwnTerms(policies[1..], clusters, f));
    }
  }

  function WeightOf(): SchedulePolicy -> int {
    (p: SchedulePolicy) => p.weight
  }

  function ShareOf(share: Share, replicas: int, totalWeight: int): SchedulePolicy -> int {
    (p: SchedulePolicy) => share(replicas, totalWeight, p.weight)
  }

  /** Both clamps are taken one after the other. */
  function ClampTwice(x: int, low: int, high: int): int {
    var y := if x < low then low else x;
    if y > high then high else y
  }

  /** Step one: the clamped share of every cluster. */
  function RoleShares(share: Share, replicas: int, policies: seq<SchedulePolicy>,
                      clusters: seq<ClusterSetTarget>): (r: seq<int>)
    ensures |r| == |clusters|
    ensures forall j :: 0 <= j < |r| ==>
      r[j] == ClampTwice(OwnTerm(policies, clusters[j].role,
        ShareOf(share, replicas, PairSum(policies, clusters, WeightOf()))),
                         InstanceFor(policies, clusters[j].role).min, InstanceFor(policies, clusters[j].role).max)
  {
    var f := ShareOf(share, replicas, PairSum(policies, clusters, WeightOf()));
    seq(|clusters|, j requires 0 <= j < |clusters| =>
      ClampTwice(OwnTerm(policies, clusters[j].role, f),
                 InstanceFor(policies, clusters[j].role).min, InstanceFor(policies, clusters[j].role).max))
  }

  /** The total that step two steers for: Replicas, short of what shares of repeated roles count twice. */
  function RoleAim(share: Share, replicas: int, policies: seq<SchedulePolicy>, clusters: seq<ClusterSetTarget>): int {
    var f := ShareOf(share, replicas, PairSum(policies, clusters, WeightOf()));
    replicas - PairSum(policies, clusters, f) + Sum(OwnTerms(policies, clusters, f))
  }

  lemma AimIsReplicas(share: Share, replicas: int, policies: seq<SchedulePolicy>, clusters: seq<ClusterSetTarget>)
    requires DistinctRoles(policies)
    ensures RoleAim(share, replicas, policies, clusters) == replicas
  {
    PairSumByCluster(policies, clusters, ShareOf(share, replicas, PairSum(policies, clusters, WeightOf())));
  }

  // ---------- step two ----------

  /** Step two from any counts: the fill over the clusters, then the round robin over the roles. */
  ghost function RoleSpread(instances: seq<SchedulePolicy>, base: seq<int>, replicas: int, list: seq<SchedulePolicy>,
                            asWritten: bool): RoleStep
    requires |base| == |instances| > 0 && list != []
  {
    RoleSpreadOwed(instances, base, replicas > Sum(base), Abs(replicas - Sum(base)), list, asWritten)
  }

  ghost function RoleSpreadOwed(instances: seq<SchedulePolicy>, base: seq<int>, up: bool, owed: nat,
                                list: seq<SchedulePolicy>, asWritten: bool): RoleStep
    requires |base| == |instances| > 0 && list != []
  {
    if owed == 0 then Returned(State(base, list, 0, 0))
    else
      RoleFilledWf(instances, base, up, owed, list);
      RoleRounds(instances, up, RoleFilled(instances, base, up, owed, list), asWritten)
  }

  /** The state after the fill: the code's index starts before the first entry. */
  function RoleFilled(instances: seq<SchedulePolicy>, base: seq<int>, up: bool, owed: nat,
                      list: seq<SchedulePolicy>): State
    requires |base| == |instances| > 0
  {
    StepTwo(instances, base, up, owed, list).(idx := -1)
  }

  lemma RoleFilledWf(instances: seq<SchedulePolicy>, base: seq<int>, up: bool, owed: nat, list: seq<SchedulePolicy>)
    requires |base| == |instances| > 0 && list != []
    ensures var s := RoleFilled(instances, base, up, owed, list);
      && RoleWf(instances, up, s) && s.list == list
      && Move(Sum(s.replicas), s.add, up) == Move(Sum(base), owed, up)
      && (HaveRoom(instances, base, up) ==> Advanced(base, s.replicas, up))
  {
    StepTwoConserves(instances, base, up, owed, list);
  }

  function RoleStepTwo(instances: seq<SchedulePolicy>, base: seq<int>, replicas: int, list: seq<SchedulePolicy>): State
    requires |base| == |instances| > 0
  {
    RoleFilled(instances, base, replicas > Sum(base), Abs(replicas - Sum(base)), list)
  }

  lemma RoleStart(instances: seq<SchedulePolicy>, base: seq<int>, replicas: int, list: seq<SchedulePolicy>)
    requires |base| == |instances| > 0 && list != []
    ensures var s, up := RoleStepTwo(instances, base, replicas, list), replicas > Sum(base);
      && RoleWf(instances, up, s) && s.list == list
      && Move(Sum(s.replicas), s.add, up) == replicas
      && (HaveRoom(instances, base, up) ==> Advanced(base, s.replicas, up))
  {
    RoleFilledWf(instances, base, replicas > Sum(base), Abs(replicas - Sum(base)), list);
  }

  /** How step two ends, computed from the counts after step one. */
  function SpreadEnd(instances: seq<SchedulePolicy>, base: seq<int>, replicas: int, list: seq<SchedulePolicy>,
                     asWritten: bool): End
    requires |base| == |instances| > 0 && list != []
  {
    if replicas == Sum(base) then AllGiven
    else OwedEnd(instances, base, replicas > Sum(base), Abs(replicas - Sum(base)), list, asWritten)
  }

  function OwedEnd(instances: seq<SchedulePolicy>, base: seq<int>, up: bool, owed: nat, list: seq<SchedulePolicy>,
                   asWritten: bool): End
    requires |base| == |instances| > 0 && list != []
  {
    var s := RoleFilled(instances, base, up, owed, list);
    RoleFilledWf(instances, base, up, owed, list);
    WfRooms(instances, up, s);
    EndOf(instances, RoomsOf(instances, up, s.replicas), list, 0, 0, s.add, asWritten)
  }

  /** The run of step two, as meant, drops the last role of the list before the last cluster. */
  ghost predicate RunStrands(instances: seq<SchedulePolicy>, base: seq<int>, replicas: int, list: seq<SchedulePolicy>)
    requires |base| == |instances| > 0 && list != []
  {
    replicas != Sum(base) && (RoleStart(instances, base, replicas, list);
      Strands(instances, replicas > Sum(base), RoleStepTwo(instances, base, replicas, list)))
  }

  // ---------- main results ----------

  /** The result of either reading: ranges hold, the signed remainder is exactly what is missing or
      in excess, and a remainder is left only when every role has a cluster at its bound. */
  ghost predicate RoleOutcomeOk(instances: seq<SchedulePolicy>, base: seq<int>, replicas: int,
                                list: seq<SchedulePolicy>, t: State) {
    && |t.replicas| == |base| == |instances|
    && (WithinRanges(instances, base) ==> WithinRanges(instances, t.replicas))
    && t.add >= 0
    && Sum(t.replicas) == Move(replicas, -t.add, replicas > Sum(base))
    && (t.add > 0 ==>
      forall q :: 0 <= q < |list| ==> Saturated(instances, t.replicas, replicas > Sum(base), list[q].role))
  }

  /** A run that never returns has nowhere left to put the remainder: every role of the list is
      saturated or has no cluster, and one of them has no cluster. */
  ghost predicate SpinsOutcome(instances: seq<SchedulePolicy>, base: seq<int>, replicas: int,
                               list: seq<SchedulePolicy>, t: State) {
    && RoleOutcomeOk(instances, base, replicas, [], t) && t.add > 0
    && (forall q :: 0 <= q < |list| && Carried(instances, list[q].role) ==>
          Saturated(instances, t.replicas, replicas > Sum(base), list[q].role))
    && exists q :: 0 <= q < |list| && !Carried(instances, list[q].role)
  }

  lemma RoleOutcome(instances: seq<SchedulePolicy>, base: seq<int>, replicas: int, list: seq<SchedulePolicy>,
                    asWritten: bool)
    requires |base| == |instances| > 0 && list != []
    ensures var r := RoleSpread(instances, base, replicas, list, asWritten);
      && !r.Next? && (r.IndexPanic? ==> asWritten)
      && (r.Returned? ==> RoleOutcomeOk(instances, base, replicas, list, r.state))
      && (r.Spins? ==> SpinsOutcome(instances, base, replicas, list, r.state))
  {
    if replicas != Sum(base) {
      var up, s := replicas > Sum(base), RoleStepTwo(instances, base, replicas, list);
      RoleStart(instances, base, replicas, list);
      RoleRoundsKeep(instances, up, s, asWritten);
      var r := RoleRounds(instances, up, s, asWritten);
      if r.Returned? {
        ReturnedOk(instances, base, replicas, list, s, r.state);
      } else if r.Spins? {
        SpinsOk(instances, base, replicas, list, s, r.state);
      }
    }
  }

  lemma KeptInRange(instances: seq<SchedulePolicy>, base: seq<int>, up: bool, s: State, t: State)
    requires |base| == |instances| && Kept(instances, up, s, t)
    requires HaveRoom(instances, base, up) ==> Advanced(base, s.replicas, up)
    ensures WithinRanges(instances, base) ==> WithinRanges(instances, t.replicas)
  {
    if WithinRanges(instances, base) {
      BaseInRange(instances, base);
      AdvancedInRange(instances, base, s.replicas, t.replicas, up);
    }
  }

  lemma ReturnedOk(instances: seq<SchedulePolicy>, base: seq<int>, replicas: int, list: seq<SchedulePolicy>, s: State,
                   t: State)
    requires |base| == |instances| && s.list == list && Kept(instances, replicas > Sum(base), s, t)
    requires Move(Sum(s.replicas), s.add, replicas > Sum(base)) == replicas && (t.add == 0 || t.list == [])
    requires HaveRoom(instances, base, replicas > Sum(base)) ==> Advanced(base, s.replicas, replicas > Sum(base))
    ensures RoleOutcomeOk(instances, base, replicas, list, t)
  {
    KeptInRange(instances, base, replicas > Sum(base), s, t);
  }

  lemma SpinsOk(instances: seq<SchedulePolicy>, base: seq<int>, replicas: int, list: seq<SchedulePolicy>, s: State,
                t: State)
    requires |base| == |instances| && s.list == list && Kept(instances, replicas > Sum(base), s, t)
    requires Move(Sum(s.replicas), s.add, replicas > Sum(base)) == replicas
    requires t.add > 0 && t.list != [] && !AnyCarried(instances, t.list, 0)
    requires HaveRoom(instances, base, replicas > Sum(base)) ==> Advanced(base, s.replicas, replicas > Sum(base))
    ensures SpinsOutcome(instances, base, replicas, list, t)
  {
    KeptInRange(instances, base, replicas > Sum(base), s, t);
    assert t.list[0] in list;
    var q :| 0 <= q < |list| && list[q] == t.list[0];
    assert !Carried(instances, list[q].role);
  }

  /** In either reading the role loop ends as computed from the counts after step one: whether it returns and
      what is left then, whether it panics, and whether it never ends. */
  lemma RoleEndExact(instances: seq<SchedulePolicy>, base: seq<int>, replicas: int, list: seq<SchedulePolicy>,
                     asWritten: bool)
    requires |base| == |instances| > 0 && list != [] && DistinctRoles(list)
    ensures var r, e := RoleSpread(instances, base, replicas, list, asWritten),
                        SpreadEnd(instances, base, replicas, list, asWritten);
      && EndsAs(r, e)
      && (r.IndexPanic? <==> e.Panics?) && (r.Spins? <==> e.NeverEnds?)
      && (r.Returned? <==> e.AllGiven? || e.SomeLeft?)
      && (r.Returned? ==>
        Sum(r.state.replicas) == Move(replicas, -(if e.SomeLeft? then e.left else 0), replicas > Sum(base)))
  {
    hide RoleRounds, OwedEnd, StepTwo, Saturated, WithinRanges;
    RoleOutcome(instances, base, replicas, list, asWritten);
    if replicas != Sum(base) {
      OwedEnds(instances, base, replicas > Sum(base), Abs(replicas - Sum(base)), list, asWritten);
    }
  }

  lemma OwedEnds(instances: seq<SchedulePolicy>, base: seq<int>, up: bool, owed: nat, list: seq<SchedulePolicy>,
                 asWritten: bool)
    requires |base| == |instances| > 0 && list != [] && DistinctRoles(list) && owed > 0
    ensures EndsAs(RoleSpreadOwed(instances, base, up, owed, list, asWritten),
      OwedEnd(instances, base, up, owed, list, asWritten))
  {
    RoleFilledWf(instances, base, up, owed, list);
    LoopEnds(instances, up, RoleFilled(instances, base, up, owed, list), asWritten);
  }

  /** Exactly when the code as written gets through: it panics if and only if the run as meant strands, and
      otherwise it returns what that run returns. With distinct roles on the list that is computed from the input. */
  lemma RoleAsWrittenExact(instances: seq<SchedulePolicy>, base: seq<int>, replicas: int, list: seq<SchedulePolicy>)
    requires |base| == |instances| > 0 && list != []
    ensures RoleSpread(instances, base, replicas, list, true)
      == if RunStrands(instances, base, replicas, list) then IndexPanic
        else RoleSpread(instances, base, replicas, list, false)
    ensures DistinctRoles(list) ==>
      (RunStrands(instances, base, replicas, list) <==> SpreadEnd(instances, base, replicas, list, true).Panics?)
  {
    RoleOutcome(instances, base, replicas, list, false);
    if replicas != Sum(base) {
      RoleStart(instances, base, replicas, list);
      RoundsPanic(instances, replicas > Sum(base), RoleStepTwo(instances, base, replicas, list));
    }
    if DistinctRoles(list) {
      RoleEndExact(instances, base, replicas, list, true);
    }
  }

  lemma RoleSharesInRange(share: Share, replicas: int, policies: seq<SchedulePolicy>, clusters: seq<ClusterSetTarget>)
    requires RangesOk(policies)
    ensures RangesOk(Instances(policies, clusters))
    ensures WithinRanges(Instances(policies, clusters), RoleShares(share, replicas, policies, clusters))
  {
    forall j | 0 <= j < |clusters|
      ensures InstanceFor(policies, clusters[j].role).min <= InstanceFor(policies, clusters[j].role).max
    {
      InstanceInRange(policies, clusters[j].role);
    }
  }

  lemma {:induction false} InstanceInRange(policies: seq<SchedulePolicy>, role: string)
    requires RangesOk(policies)
    ensures InstanceFor(policies, role).min <= InstanceFor(policies, role).max
  {
    if policies != [] {
      assert forall i :: 0 <= i < |policies[1..]| ==> policies[1..][i] == policies[i + 1];
      InstanceInRange(policies[1..], role);
    }
  }

  // ---------- with room for everybody ----------

  lemma {:induction false} SumAtLeast(s: seq<int>)
    requires forall i :: 0 <= i < |s| ==> s[i] >= 1
    ensures Sum(s) >= |s|
  {
    if s != [] {
      SumAtLeast(s[1..]);
    }
  }

  /** When the even fill leaves every cluster with room, everything is given out and nobody panics. */
  lemma RoomMeansReturned(instances: seq<SchedulePolicy>, base: seq<int>, up: bool, owed: nat,
                          list: seq<SchedulePolicy>,
                          asWritten: bool)
    requires |base| == |instances| > 0 && owed > 0 && DistinctRoles(list) && AllListed(instances, list) && list != []
    requires RoomAfterFill(instances, base, up, owed)
    ensures var r := RoleSpreadOwed(instances, base, up, owed, list, asWritten);
      r.Returned? && r.state.add == 0
  {
    var s := RoleFilled(instances, base, up, owed, list);
    var o := OrderToFullAfter(instances, base, up, owed, list);
    SumAtLeast(Due(o, o.rooms[o.j], o.p, o.j));
    EndAtFront(o, s.add, asWritten);
    OwedEnds(instances, base, up, owed, list, asWritten);
  }

  lemma OrderToFullAfter(instances: seq<SchedulePolicy>, base: seq<int>, up: bool, owed: nat,
                         list: seq<SchedulePolicy>)
    returns (o: RoleOrder)
    requires |base| == |instances| > 0 && AllListed(instances, list) && list != []
    requires RoomAfterFill(instances, base, up, owed)
    ensures var s := RoleFilled(instances, base, up, owed, list);
      && 0 <= s.add < |instances|
      && o == RoleOrder(instances, RoomsOf(instances, up, s.replicas), list, o.p, o.j)
      && FirstFull(o) && NoneNegative(o.rooms)
      && forall k :: 0 <= k < |instances| ==> Due(o, o.rooms[o.j], o.p, o.j)[k] >= 1
  {
    var s := RoleFilled(instances, base, up, owed, list);
    RoleFilledWf(instances, base, up, owed, list);
    WfRooms(instances, up, s);
    ShortsAreZero(instances, base, up, EvenPart(owed, |instances|));
    var q :| 0 <= q < |list| && list[q].role == instances[0].role;
    assert Carried(instances, list[q].role);
    o := OrderToFull(instances, RoomsOf(instances, up, s.replicas), list);
  }

  lemma SortedRolesDiffer(sorted: seq<SchedulePolicy>, policies: seq<SchedulePolicy>)
    requires multiset(sorted) == multiset(policies) && DistinctRoles(policies)
    ensures DistinctRoles(sorted)
  {
    forall i, j | 0 <= i < j < |sorted| ensures sorted[i].role != sorted[j].role {
      assert sorted[i] in multiset(policies) && sorted[j] in multiset(policies);
      var a :| 0 <= a < |policies| && policies[a] == sorted[i];
      var b :| 0 <= b < |policies| && policies[b] == sorted[j];
      if a == b {
        TwiceCounted(sorted, i, j);
        RoleCount(policies, sorted[i]);
      }
    }
  }

  lemma {:induction false} RoleCount(policies: seq<SchedulePolicy>, e: SchedulePolicy)
    requires DistinctRoles(policies)
    ensures multiset(policies)[e] <= 1
  {
    if policies != [] {
      assert policies == [policies[0]] + policies[1..];
      assert forall i :: 0 <= i < |policies[1..]| ==> policies[1..][i] == policies[i + 1];
      RoleCount(policies[1..], e);
      assert policies[0] !in policies[1..];
    }
  }

  /** There is a first full cluster unless no cluster has a listed role. Then the code returns only if the fill leaves
      nothing over, and otherwise never ends. */
  lemma FullAtExists(instances: seq<SchedulePolicy>, base: seq<int>, replicas: int, list: seq<SchedulePolicy>)
    requires |base| == |instances| > 0 && list != []
    ensures var s := RoleStepTwo(instances, base, replicas, list);
      var rooms := RoomsOf(instances, replicas > Sum(base), s.replicas);
      AnyCarried(instances, list, 0) <==>
        exists p: nat, j: nat :: FirstFull(RoleOrder(instances, rooms, list, p, j))
    ensures !AnyCarried(instances, list, 0) ==> forall asWritten ::
      var r := RoleSpread(instances, base, replicas, list, asWritten);
      if replicas == Sum(base) || RoleStepTwo(instances, base, replicas, list).add == 0 then
        r.Returned? && Sum(r.state.replicas) == replicas
      else
        r.Spins?
  {
    hide *;
    var up, s := replicas > Sum(base), RoleStepTwo(instances, base, replicas, list);
    RoleStart(instances, base, replicas, list);
    WfRooms(instances, up, s);
    FullIffCarried(instances, RoomsOf(instances, up, s.replicas), list);
    if !AnyCarried(instances, list, 0) {
      NobodyServed(instances, base, replicas, list, true);
      NobodyServed(instances, base, replicas, list, false);
    }
  }

  lemma NobodyServed(instances: seq<SchedulePolicy>, base: seq<int>, replicas: int, list: seq<SchedulePolicy>,
                     asWritten: bool)
    requires |base| == |instances| > 0 && list != [] && !AnyCarried(instances, list, 0)
    ensures var r := RoleSpread(instances, base, replicas, list, asWritten);
      if replicas == Sum(base) || RoleStepTwo(instances, base, replicas, list).add == 0 then
        r.Returned? && Sum(r.state.replicas) == replicas
      else
        r.Spins?
  {
    hide AnyCarried, RoleRounds, RoleFilled, RoleWf, Advanced, HaveRoom;
    RoleStart(instances, base, replicas, list);
    if replicas != Sum(base) {
      RoundsAtOnce(instances, replicas > Sum(base), RoleStepTwo(instances, base, replicas, list), asWritten);
    }
  }

  lemma RoundsAtOnce(instances: seq<SchedulePolicy>, up: bool, s: State, asWritten: bool)
    requires RoleWf(instances, up, s) && !AnyCarried(instances, s.list, 0)
    ensures RoleRounds(instances, up, s, asWritten) == if s.add == 0 then Returned(s) else Spins(s)
  {
  }

  /** The role schedule as written, from the policies on: it ends as computed from the shares. With all given out
      the total is Replicas; whenever it returns, every cluster is in its range, and what is missing or in
      excess is exactly the computed remainder, which is left only when every policy's role has a cluster
      at its bound. */
  lemma RoleSchedule(share: Share, replicas: int, policies: seq<SchedulePolicy>, clusters: seq<ClusterSetTarget>,
                     sorted: seq<SchedulePolicy>)
    requires policies != [] && clusters != [] && IsSortOf(sorted, policies) && sorted != [] && RangesOk(policies)
    requires DistinctRoles(policies)
    ensures var instances, base := Instances(policies, clusters), RoleShares(share, replicas, policies, clusters);
      var r, e := RoleSpread(instances, base, replicas, sorted, true),
                  SpreadEnd(instances, base, replicas, sorted, true);
      && EndsAs(r, e)
      && (e.AllGiven? ==> Sum(r.state.replicas) == replicas)
      && (r.Returned? ==> ScheduledOk(instances, base, replicas, policies, r.state))
  {
    var instances, base := Instances(policies, clusters), RoleShares(share, replicas, policies, clusters);
    SortedRolesDiffer(sorted, policies);
    RoleEndExact(instances, base, replicas, sorted, true);
    RoleSharesInRange(share, replicas, policies, clusters);
    RoleOutcome(instances, base, replicas, sorted, true);
    ReturnsByPolicy(instances, base, replicas, policies, sorted, RoleSpread(instances, base, replicas, sorted, true));
  }

  lemma ReturnsByPolicy(instances: seq<SchedulePolicy>, base: seq<int>, replicas: int, policies: seq<SchedulePolicy>,
                        sorted: seq<SchedulePolicy>, r: RoleStep)
    requires |base| == |instances| && WithinRanges(instances, base) && multiset(sorted) == multiset(policies)
    requires r.Returned? ==> RoleOutcomeOk(instances, base, replicas, sorted, r.state)
    ensures r.Returned? ==> ScheduledOk(instances, base, replicas, policies, r.state)
    ensures r.Returned? && r.state.add == 0 ==> Sum(r.state.replicas) == replicas
  {
    if r.Returned? {
      OutcomeByPolicy(instances, base, replicas, policies, sorted, r.state);
    }
  }

  ghost predicate ScheduledOk(instances: seq<SchedulePolicy>, base: seq<int>, replicas: int,
                              policies: seq<SchedulePolicy>, t: State) {
    && |t.replicas| == |instances| && WithinRanges(instances, t.replicas)
    && t.add >= 0 && Sum(t.replicas) + (if replicas > Sum(base) then t.add else -t.add) == replicas
    && (t.add > 0 ==> forall i :: 0 <= i < |policies| ==>
          Saturated(instances, t.replicas, replicas > Sum(base), policies[i].role))
  }

  lemma OutcomeByPolicy(instances: seq<SchedulePolicy>, base: seq<int>, replicas: int, policies: seq<SchedulePolicy>,
                        sorted: seq<SchedulePolicy>, t: State)
    requires |base| == |instances| && RoleOutcomeOk(instances, base, replicas, sorted, t)
      && WithinRanges(instances, base)
    requires multiset(sorted) == multiset(policies)
    ensures ScheduledOk(instances, base, replicas, policies, t)
  {
    forall i | 0 <= i < |policies| && t.add > 0
      ensures Saturated(instances, t.replicas, replicas > Sum(base), policies[i].role)
    {
      assert policies[i] in multiset(sorted);
      var q :| 0 <= q < |sorted| && sorted[q] == policies[i];
    }
  }

  // ---------- when it never ends ----------

  predicate SomeUncarried(instances: seq<SchedulePolicy>, list: seq<SchedulePolicy>) {
    exists q :: 0 <= q < |list| && !Carried(instances, list[q].role)
  }

  /** More or fewer replicas are asked for than the ranges allow. */
  predicate OutOfRange(instances: seq<SchedulePolicy>, replicas: int) {
    replicas > Sum(Bounds(instances, true)) || replicas < Sum(Bounds(instances, false))
  }

  /** Replicas clamped to what the ranges allow. */
  function InRange(instances: seq<SchedulePolicy>, replicas: int): int {
    Clamp(replicas, Sum(Bounds(instances, false)), Sum(Bounds(instances, true)))
  }

  /** With a listed role that no cluster carries and more asked for than fits, the loop does not return;
      as meant, it never ends. */
  lemma RoleNeverReturns(instances: seq<SchedulePolicy>, base: seq<int>, replicas: int, list: seq<SchedulePolicy>,
                         asWritten: bool)
    requires |base| == |instances| > 0 && WithinRanges(instances, base)
    requires SomeUncarried(instances, list) && OutOfRange(instances, replicas)
    ensures var r := RoleSpread(instances, base, replicas, list, asWritten);
      !r.Returned? && (!asWritten ==> r.Spins?)
  {
    RoleOutcome(instances, base, replicas, list, asWritten);
    var r := RoleSpread(instances, base, replicas, list, asWritten);
    if r.Returned? {
      UncarriedIsNotSaturated(instances, r.state.replicas, replicas > Sum(base), list);
      BaseInRange(instances, r.state.replicas);
    }
  }

  lemma UncarriedIsNotSaturated(instances: seq<SchedulePolicy>, replicas: seq<int>, up: bool, list: seq<SchedulePolicy>)
    requires |replicas| == |instances| && SomeUncarried(instances, list)
    ensures !forall q :: 0 <= q < |list| ==> Saturated(instances, replicas, up, list[q].role)
  {
    var q :| 0 <= q < |list| && !Carried(instances, list[q].role);
    assert !Saturated(instances, replicas, up, list[q].role);
  }

  /** No two clusters have the same role. */
  predicate OnePerRole(instances: seq<SchedulePolicy>) {
    forall i, j :: 0 <= i < j < |instances| ==> instances[i].role != instances[j].role
  }

  /** Every cluster has a listed role, or only one count it can have, like a cluster without a policy. */
  predicate ListedOrFixed(instances: seq<SchedulePolicy>, list: seq<SchedulePolicy>) {
    forall k :: 0 <= k < |instances| ==> Lists(list, instances[k].role) || instances[k].min == instances[k].max
  }

  lemma SaturatedAlone(instances: seq<SchedulePolicy>, replicas: seq<int>, up: bool, list: seq<SchedulePolicy>)
    requires |replicas| == |instances| && WithinRanges(instances, replicas)
    requires OnePerRole(instances) && ListedOrFixed(instances, list)
    requires forall q :: 0 <= q < |list| && Carried(instances, list[q].role) ==>
      Saturated(instances, replicas, up, list[q].role)
    ensures Sum(replicas) == Sum(Bounds(instances, up))
  {
    forall k | 0 <= k < |instances| ensures replicas[k] == Bound(instances[k], up) {
      if Lists(list, instances[k].role) {
        var q :| 0 <= q < |list| && list[q].role == instances[k].role;
        assert Carried(instances, list[q].role);
        var j :| 0 <= j < |instances| && instances[j].role == list[q].role && Room(instances[j], replicas[j], up) == 0;
      }
    }
    assert replicas == Bounds(instances, up);
  }

  /** With one cluster to a role the ranges tell as much: as meant, the loop never ends if and only if some listed
      role has no cluster and Replicas does not fit the ranges; and when it ends, the total is Replicas
      clamped to what the ranges allow. */
  lemma RoleMeantExact(instances: seq<SchedulePolicy>, base: seq<int>, replicas: int, list: seq<SchedulePolicy>)
    requires |base| == |instances| > 0 && WithinRanges(instances, base) && list != []
    requires OnePerRole(instances) && ListedOrFixed(instances, list)
    ensures var r := RoleSpread(instances, base, replicas, list, false);
      && (r.Spins? <==> SomeUncarried(instances, list) && OutOfRange(instances, replicas))
      && (!r.Spins? ==> r.Returned? && Sum(r.state.replicas) == InRange(instances, replicas))
  {
    RoleOutcome(instances, base, replicas, list, false);
    BaseInRange(instances, base);
    var r := RoleSpread(instances, base, replicas, list, false);
    if r.Spins? {
      SaturatedAlone(instances, r.state.replicas, replicas > Sum(base), list);
    } else {
      if SomeUncarried(instances, list) && OutOfRange(instances, replicas) {
        RoleNeverReturns(instances, base, replicas, list, false);
      }
      BaseInRange(instances, r.state.replicas);
      if r.state.add > 0 {
        SaturatedAlone(instances, r.state.replicas, replicas > Sum(base), list);
      }
    }
  }

  /** The role loop always ends when every policy's role has a cluster. */
  lemma RoleScheduleEnds(share: Share, replicas: int, policies: seq<SchedulePolicy>, clusters: seq<ClusterSetTarget>,
                         sorted: seq<SchedulePolicy>)
    requires policies != [] && clusters != [] && IsSortOf(sorted, policies) && sorted != []
    requires forall i :: 0 <= i < |policies| ==> exists j :: 0 <= j < |clusters| && clusters[j].role == policies[i].role
    ensures !RoleSpread(Instances(policies, clusters), RoleShares(share, replicas, policies, clusters), replicas,
      sorted, true).Spins?
  {
    var instances := Instances(policies, clusters);
    RoleOutcome(instances, RoleShares(share, replicas, policies, clusters), replicas, sorted, true);
    forall q | 0 <= q < |sorted| ensures Carried(instances, sorted[q].role) {
      assert sorted[q] in multiset(policies);
      var i :| 0 <= i < |policies| && policies[i] == sorted[q];
      var j :| 0 <= j < |clusters| && clusters[j].role == policies[i].role;
      InstanceHasRole(policies, i);
      assert instances[j].role == sorted[q].role;
    }
  }

  lemma {:induction false} InstanceHasRole(policies: seq<SchedulePolicy>, i: nat)
    requires i < |policies|
    ensures InstanceFor(policies, policies[i].role).role == policies[i].role
  {
    if policies[0].role != policies[i].role {
      assert policies[1..][i - 1] == policies[i];
      InstanceHasRole(policies[1..], i - 1);
    }
  }
}
