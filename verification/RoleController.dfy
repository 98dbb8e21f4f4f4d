/** The scheduler's loops for cluster roles, in place on the replica counts of one resource. */
module RoleController {
  import opened Sums
  import opened Policies
  import opened RoundRobin
  import opened WeightedScheduler
  import opened WeightedController
  import opened RoleRoundRobin
  import opened RoleScheduler
  import opened ProportionalShares

  /** How step two ends: it returns, it reads the list at -1, or its loop goes on for ever. A method
      cannot go on for ever; where the source does, it says so. */
  datatype Ending = Done | Panic | NeverEnds

  function EndingOf(r: RoleStep): Ending {
    match r
    case Returned(_) => Done
    case IndexPanic => Panic
    case _ => NeverEnds
  }

  /** Go's integer division and remainder, which truncate towards zero. */
  function GoDiv(a: int, n: int): int
    requires n > 0
  {
    if a >= 0 then a / n else -((-a) / n)
  }

  function GoMod(a: int, n: int): int
    requires n > 0
  {
    if a >= 0 then a % n else -((-a) % n)
  }

  method CalculateWeightByRole(share: Share, replicas: int, policies: seq<SchedulePolicy>,
                               clusters: seq<ClusterSetTarget>)
    returns (totalWeight: int, diffReplicas: int)
    ensures totalWeight == PairSum(policies, clusters, WeightOf()) == RoleWeightSum(policies, clusters)
    ensures diffReplicas == replicas - PairSum(policies, clusters, ShareOf(share, replicas, totalWeight))
  {
    diffReplicas := 0;
    totalWeight := SumOverPairs(policies, clusters, WeightOf());
    RoleWeightsAdd(policies, clusters);
    var nowReplicas := SumOverPairs(policies, clusters, ShareOf(share, replicas, totalWeight));
    if nowReplicas != replicas {
      diffReplicas := replicas - nowReplicas;
    }
  }

  /** The nested loop over policies and clusters. */
  method SumOverPairs(policies: seq<SchedulePolicy>, clusters: seq<ClusterSetTarget>, f: SchedulePolicy -> int)
    returns (total: int)
    ensures total == PairSum(policies, clusters, f)
  {
    total := 0;
    for i := 0 to |policies|
      invariant total + PairSum(policies[i..], clusters, f) == PairSum(policies, clusters, f)
    {
      assert policies[i..][0] == policies[i] && policies[i..][1..] == policies[i + 1..];
      ghost var terms := MatchTerms(policies[i], clusters, f);
      ghost var before := total;
      for j := 0 to |clusters|
        invariant total == before + Sum(terms[..j])
      {
        SumSnoc(terms, j);
        if clusters[j].role == policies[i].role {
          total := total + f(policies[i]);
        }
      }
      assert terms[..|clusters|] == terms;
    }
  }

  /** The policy of the cluster with this name, through the first policy that has its role. */
  method FindPolicy(policies: seq<SchedulePolicy>, clusters: seq<ClusterSetTarget>, name: string, ghost at: nat)
    returns (found: bool, p: SchedulePolicy)
    requires OneRolePerName(clusters) && at < |clusters| && clusters[at].name == name
    ensures found == HasRole(policies, clusters[at].role) && p == InstanceFor(policies, clusters[at].role)
  {
    found, p := false, NO_POLICY;
    for i := 0 to |clusters|
      invariant i <= at && !found && p == NO_POLICY
    {
      if clusters[i].name == name {
        for k := 0 to |policies|
          invariant !found && p == NO_POLICY
          invariant forall l :: 0 <= l < k ==> policies[l].role != clusters[i].role
          invariant InstanceFor(policies[k..], clusters[i].role) == InstanceFor(policies, clusters[i].role)
        {
          assert policies[k..][0] == policies[k] && policies[k..][1..] == policies[k + 1..];
          if policies[k].role == clusters[i].role {
            found, p := true, policies[k];
            break;
          }
        }
        return;
      }
    }
  }

  /** Step one for one cluster: what the clamps take or give moves into the debt. */
  method FirstReplaceReplicasByClusterRole(share: Share, replicas: int, policies: seq<SchedulePolicy>,
                                           clusters: seq<ClusterSetTarget>,
                                           j: nat, model: FirstReplaceReplicasModel)
    returns (r: int)
    requires OneRolePerName(clusters) && j < |clusters|
    modifies model`diffReplicas
    ensures var own := OwnTerm(policies, clusters[j].role, ShareOf(share, replicas, model.totalWeight));
      && r == ClampTwice(own, InstanceFor(policies, clusters[j].role).min, InstanceFor(policies, clusters[j].role).max)
      && r + model.diffReplicas == own + old(model.diffReplicas)
    ensures var own := OwnTerm(policies, clusters[j].role, ShareOf(share, replicas, model.totalWeight));
      var p := InstanceFor(policies, clusters[j].role);
      NearestInRange(r, own, p.min, p.max)
  {
    var found, p := FindPolicy(policies, clusters, clusters[j].name, j);
    r := 0;
    if found {
      r := share(replicas, model.totalWeight, p.weight);
    }
    if r < p.min {
      model.diffReplicas := model.diffReplicas - (p.min - r);
      r := p.min;
    }
    if r > p.max {
      model.diffReplicas := model.diffReplicas + (r - p.max);
      r := p.max;
    }
  }

  /** The even fill over the clusters. */
  method FillByRole(policies: seq<SchedulePolicy>, clusters: seq<ClusterSetTarget>, replicas: array<int>,
                    diffReplicas: int,
                    fillNum: int, rest: int)
    returns (addNum: int)
    requires replicas.Length == |clusters| && diffReplicas != 0 && OneRolePerName(clusters)
    modifies replicas
    ensures var was := old(replicas[..]);
      && replicas[..] == Filled(Instances(policies, clusters), was, diffReplicas > 0, fillNum)
      && addNum == rest + Sum(Shorts(Instances(policies, clusters), was, diffReplicas > 0, fillNum))
  {
    ghost var was, instances := replicas[..], Instances(policies, clusters);
    ghost var filled := Filled(instances, was, diffReplicas > 0, fillNum);
    ghost var shorts := Shorts(instances, was, diffReplicas > 0, fillNum);
    addNum := rest;
    for j := 0 to |clusters|
      invariant forall k :: 0 <= k < j ==> replicas[k] == filled[k]
      invariant forall k :: j <= k < |clusters| ==> replicas[k] == was[k]
      invariant addNum == rest + Sum(shorts[..j])
    {
      SumSnoc(shorts, j);
      var _, p := FindPolicy(policies, clusters, clusters[j].name, j);
      var policyMaxOrMin := if diffReplicas > 0 then p.max else p.min;
      var toMaxOrMin := if diffReplicas > 0 then policyMaxOrMin - replicas[j] else replicas[j] - policyMaxOrMin;
      if toMaxOrMin < fillNum {
        replicas[j] := policyMaxOrMin;
        addNum := addNum + fillNum - toMaxOrMin;
      } else {
        replicas[j] := if diffReplicas > 0 then replicas[j] + fillNum else replicas[j] - fillNum;
      }
    }
    assert shorts[..|clusters|] == shorts;
    assert replicas[..] == filled;
  }

  method FillAllByRole(policies: seq<SchedulePolicy>, clusters: seq<ClusterSetTarget>, replicas: array<int>,
                       diffReplicas: int,
                       ghost list: seq<SchedulePolicy>)
    returns (addNum: int)
    requires replicas.Length == |clusters| > 0 && diffReplicas != 0 && OneRolePerName(clusters)
    modifies replicas
    ensures var s := StepTwo(Instances(policies, clusters), old(replicas[..]), diffReplicas > 0, Abs(diffReplicas),
      list);
      replicas[..] == s.replicas && addNum == s.add
  {
    var fillNum, rest := GoDiv(diffReplicas, |clusters|), GoMod(diffReplicas, |clusters|);
    if diffReplicas < 0 {
      fillNum, rest := -fillNum, -rest;
    }
    SplitIsDivision(Abs(diffReplicas), |clusters|);
    addNum := FillByRole(policies, clusters, replicas, diffReplicas, fillNum, rest);
  }

  /** The first policy with this role, the zero value if there is none. */
  method FirstWithRole(policies: seq<SchedulePolicy>, role: string) returns (p: SchedulePolicy)
    ensures p == InstanceFor(policies, role)
  {
    p := NO_POLICY;
    for k := 0 to |policies|
      invariant p == NO_POLICY
      invariant InstanceFor(policies[k..], role) == InstanceFor(policies, role)
    {
      assert policies[k..][0] == policies[k] && policies[k..][1..] == policies[k + 1..];
      if policies[k].role == role {
        return policies[k];
      }
    }
  }

  /** What a sweep leaves behind. */
  ghost predicate SweptTo(r: RoleStep, s: State, running: bool, ok: bool) {
    match r
    case Next(t, _) => ok && running && t == s
    case Returned(t) => ok && !running && t == s
    case IndexPanic => !ok
    case Spins(_) => false
  }

  /** The loop over the clusters, as written. `running` says that the outer loop goes on, `ok` that the
      list was never read at -1. */
  method SweepClusters(policies: seq<SchedulePolicy>, clusters: seq<ClusterSetTarget>, replicas: array<int>,
                       diffReplicas: int, addNum: int, sortPolicy: SortPolicy)
    returns (newAddNum: int, running: bool, ok: bool)
    requires replicas.Length == |clusters| && diffReplicas != 0 && 0 <= sortPolicy.idx < |sortPolicy.list|
    modifies replicas, sortPolicy
    ensures SweptTo(RoleSweep(Instances(policies, clusters), diffReplicas > 0,
                              old(State(replicas[..], sortPolicy.list, sortPolicy.idx, addNum)), 0, true),
                    State(replicas[..], sortPolicy.list, sortPolicy.idx, newAddNum), running, ok)
  {
    hide Instances, InstanceFor, ClusterVisited;
    ghost var up, instances := diffReplicas > 0, Instances(policies, clusters);
    ghost var cur := State(replicas[..], sortPolicy.list, sortPolicy.idx, addNum);
    ghost var swept := RoleSweep(instances, up, cur, 0, true);
    newAddNum, running, ok := addNum, true, true;
    for j := 0 to |clusters|
      invariant running && ok && cur == State(replicas[..], sortPolicy.list, sortPolicy.idx, newAddNum)
      invariant -1 <= cur.idx < |cur.list| && cur.list != []
      invariant RoleSweep(instances, up, cur, j, true) == swept
    {
      if newAddNum == 0 {
        return;
      }
      if sortPolicy.idx == -1 {
        ok := false;
        return;
      }
      SweepVisits(instances, up, cur, j);
      newAddNum, running := VisitCluster(policies, clusters, replicas, j, diffReplicas, newAddNum, sortPolicy);
      cur := State(replicas[..], sortPolicy.list, sortPolicy.idx, newAddNum);
      if !running {
        return;
      }
    }
  }

  /** The loop body at one cluster, with the cursor on the list. */
  method VisitCluster(policies: seq<SchedulePolicy>, clusters: seq<ClusterSetTarget>, replicas: array<int>, j: nat,
                      diffReplicas: int, addNum: int, sortPolicy: SortPolicy)
    returns (newAddNum: int, running: bool)
    requires j < replicas.Length == |clusters| && diffReplicas != 0 && 0 <= sortPolicy.idx < |sortPolicy.list|
    modifies replicas, sortPolicy
    ensures var was, now := old(State(replicas[..], sortPolicy.list, sortPolicy.idx, addNum)),
                            State(replicas[..], sortPolicy.list, sortPolicy.idx, newAddNum);
      && now == ClusterVisited(Instances(policies, clusters), diffReplicas > 0, was, j)
      && running == (sortPolicy.list != [])
  {
    newAddNum, running := addNum, true;
    var p := FirstWithRole(policies, clusters[j].role);
    if p.role == sortPolicy.list[sortPolicy.idx].role {
      if if diffReplicas > 0 then replicas[j] < p.max else replicas[j] > p.min {
        replicas[j] := if diffReplicas > 0 then replicas[j] + 1 else replicas[j] - 1;
        newAddNum := addNum - 1;
      } else {
        sortPolicy.list := sortPolicy.list[..sortPolicy.idx] + sortPolicy.list[sortPolicy.idx + 1..];
        if |sortPolicy.list| == 0 {
          running := false;
          sortPolicy.idx := -1;
        } else if sortPolicy.idx == |sortPolicy.list| {
          sortPolicy.idx := -1;
        }
      }
    }
  }

  /** Step two over the clusters of a set. */
  method ReplaceReplicasByClusterRole(policies: seq<SchedulePolicy>, clusters: seq<ClusterSetTarget>,
                                      replicas: array<int>, diffReplicas: int, sortPolicy: SortPolicy)
    returns (ending: Ending)
    requires replicas.Length == |clusters| > 0 && diffReplicas != 0 && OneRolePerName(clusters) && sortPolicy.list != []
    modifies replicas, sortPolicy
    ensures var r := RoleSpreadOwed(Instances(policies, clusters), old(replicas[..]), diffReplicas > 0,
                                    Abs(diffReplicas), old(sortPolicy.list), true);
      ending == EndingOf(r) && (r.Returned? ==> replicas[..] == r.state.replicas)
  {
    ghost var up, instances, was := diffReplicas > 0, Instances(policies, clusters), replicas[..];
    ghost var cur := RoleFilled(instances, was, up, Abs(diffReplicas), sortPolicy.list);
    RoleFilledWf(instances, was, up, Abs(diffReplicas), sortPolicy.list);
    sortPolicy.idx := -1;
    var addNum := FillAllByRole(policies, clusters, replicas, diffReplicas, sortPolicy.list);
    assert cur == State(replicas[..], sortPolicy.list, sortPolicy.idx, addNum);
    ending := RoleLoop(policies, clusters, replicas, diffReplicas, addNum, sortPolicy);
  }

  /** The outer loop. Where no cluster has a role left on the list the source only moves the cursor, for ever. */
  method RoleLoop(policies: seq<SchedulePolicy>, clusters: seq<ClusterSetTarget>, replicas: array<int>,
                  diffReplicas: int, addNum: int, sortPolicy: SortPolicy)
    returns (ending: Ending)
    requires replicas.Length == |clusters| && diffReplicas != 0
    requires RoleWf(Instances(policies, clusters), diffReplicas > 0,
                    State(replicas[..], sortPolicy.list, sortPolicy.idx, addNum))
    modifies replicas, sortPolicy
    ensures var r := RoleRounds(Instances(policies, clusters), diffReplicas > 0,
                                old(State(replicas[..], sortPolicy.list, sortPolicy.idx, addNum)), true);
      ending == EndingOf(r) && (r.Returned? ==> replicas[..] == r.state.replicas)
  {
    ghost var up := diffReplicas > 0;
    var instances := Instances(policies, clusters);
    ghost var cur := State(replicas[..], sortPolicy.list, sortPolicy.idx, addNum);
    ghost var end := RoleRounds(instances, up, cur, true);
    var add := addNum;
    while add != 0
      invariant cur == State(replicas[..], sortPolicy.list, sortPolicy.idx, add)
      invariant RoleWf(instances, up, cur) && RoleRounds(instances, up, cur, true) == end
      decreases RoleMeasure(instances, up, cur), TurnsLeft(instances, cur)
    {
      if !AnyCarried(instances, sortPolicy.list, 0) {
        return NeverEnds;
      }
      SweepProgress(instances, up, cur, true);
      if sortPolicy.idx == |sortPolicy.list| - 1 {
        sortPolicy.idx := 0;
      } else {
        sortPolicy.idx := sortPolicy.idx + 1;
      }
      assert Turn(cur) == State(replicas[..], sortPolicy.list, sortPolicy.idx, add);
      var running, ok;
      add, running, ok := SweepClusters(policies, clusters, replicas, diffReplicas, add, sortPolicy);
      if !ok {
        return Panic;
      }
      if !running {
        return Done;
      }
      cur := State(replicas[..], sortPolicy.list, sortPolicy.idx, add);
    }
    ending := Done;
  }

  /** Step one over all clusters: counts and debt together stay at what step two aims at. */
  method FirstPassByRole(share: Share, replicas: int, policies: seq<SchedulePolicy>, clusters: seq<ClusterSetTarget>,
                         result: array<int>, model: FirstReplaceReplicasModel)
    requires OneRolePerName(clusters) && result.Length == |clusters|
    requires model.totalWeight == PairSum(policies, clusters, WeightOf())
    requires model.diffReplicas == replicas - PairSum(policies, clusters, ShareOf(share, replicas, model.totalWeight))
    modifies result, model`diffReplicas
    ensures result[..] == RoleShares(share, replicas, policies, clusters)
    ensures Sum(result[..]) + model.diffReplicas == RoleAim(share, replicas, policies, clusters)
  {
    hide NearestInRange;
    ghost var base := RoleShares(share, replicas, policies, clusters);
    ghost var own := OwnTerms(policies, clusters, ShareOf(share, replicas, model.totalWeight));
    ghost var diff := model.diffReplicas;
    for j := 0 to |clusters|
      invariant forall k :: 0 <= k < j ==> result[k] == base[k]
      invariant Sum(base[..j]) + model.diffReplicas == Sum(own[..j]) + diff
    {
      SumSnoc(base, j);
      SumSnoc(own, j);
      var r := FirstReplaceReplicasByClusterRole(share, replicas, policies, clusters, j, model);
      result[j] := r;
    }
    assert base[..|clusters|] == base && own[..|clusters|] == own;
    assert result[..] == base;
  }

  lemma EndsDivided(share: Share, replicas: int, policies: seq<SchedulePolicy>, clusters: seq<ClusterSetTarget>,
                    sorted: seq<SchedulePolicy>, ending: Ending, counts: seq<int>)
    requires clusters != [] && sorted != []
    requires var instances, base := Instances(policies, clusters), RoleShares(share, replicas, policies, clusters);
      var r := RoleSpread(instances, base, RoleAim(share, replicas, policies, clusters), sorted, true);
      ending == EndingOf(r) && (r.Returned? ==> counts == r.state.replicas)
    ensures DividedByRole(share, replicas, policies, clusters, ending == Done, counts)
  {
    hide RoleShares, RoleSpread, RoleAim, DividedByRole;
    RoleIsDivided(share, replicas, policies, clusters, sorted, true);
  }

  /** generateBindingByClusterRole for one resource, without its cluster names. */
  method ScheduleByRole(share: Share, replicas: int, policies: seq<SchedulePolicy>, clusters: seq<ClusterSetTarget>,
                        sorted: seq<SchedulePolicy>)
    returns (result: array<int>, ending: Ending)
    requires policies != [] && clusters != [] && sorted != []
    requires OneRolePerName(clusters) && IsSortOf(sorted, policies)
    ensures fresh(result)
    ensures var instances, base := Instances(policies, clusters), RoleShares(share, replicas, policies, clusters);
      var r := RoleSpread(instances, base, RoleAim(share, replicas, policies, clusters), sorted, true);
      ending == EndingOf(r) && (r.Returned? ==> result[..] == r.state.replicas)
    ensures DividedByRole(share, replicas, policies, clusters, ending == Done, result[..])
  {
    hide OwnTerm, ShareOf, PairSum, WeightOf, RoleWeightSum, DividedByRole, OneRolePerName, RoleAim;
    var totalWeight, diff := CalculateWeightByRole(share, replicas, policies, clusters);
    var sortPolicy := new SortPolicy(sorted);
    var model := new FirstReplaceReplicasModel(totalWeight, diff);
    result := new int[|clusters|];
    FirstPassByRole(share, replicas, policies, clusters, result, model);
    ending := Done;
    if model.diffReplicas != 0 {
      ending := ReplaceReplicasByClusterRole(policies, clusters, result, model.diffReplicas, sortPolicy);
    }
    EndsDivided(share, replicas, policies, clusters, sorted, ending, result[..]);
  }
}
