/** The scheduler's loops for named clusters, in place on the replica counts of one resource. */
module WeightedController {
  import opened Sums
  import opened Policies
  import opened RoundRobin
  import opened WeightedScheduler
  import opened ProportionalShares

  /** The shrinking, weight-sorted list and its cyclic index. */
  class SortPolicy {
    var list: seq<SchedulePolicy>
    var idx: int

    constructor (sorted: seq<SchedulePolicy>)
      ensures list == sorted && idx == 0
    {
      list, idx := sorted, 0;
    }
  }

  /** What step one carries from cluster to cluster. */
  class FirstReplaceReplicasModel {
    const totalWeight: int
    var diffReplicas: int

    constructor (totalWeight: int, diffReplicas: int)
      ensures this.totalWeight == totalWeight && this.diffReplicas == diffReplicas
    {
      this.totalWeight, this.diffReplicas := totalWeight, diffReplicas;
    }
  }

  method CalculateWeight(share: Share, replicas: int, policies: seq<SchedulePolicy>)
    returns (totalWeight: int, diffReplicas: int)
    ensures totalWeight == Sum(Weights(policies)) == WeightSum(policies)
    ensures diffReplicas == replicas - Sum(Shares(share, replicas, totalWeight, policies))
  {
    totalWeight, diffReplicas := 0, 0;
    var nowReplicas := 0;
    for i := 0 to |policies|
      invariant totalWeight == Sum(Weights(policies)[..i])
    {
      SumSnoc(Weights(policies), i);
      totalWeight := totalWeight + policies[i].weight;
    }
    assert Weights(policies)[..|policies|] == Weights(policies);
    WeightsAdd(policies);
    ghost var shares := Shares(share, replicas, totalWeight, policies);
    for i := 0 to |policies|
      invariant nowReplicas == Sum(shares[..i])
    {
      SumSnoc(shares, i);
      nowReplicas := nowReplicas + share(replicas, totalWeight, policies[i].weight);
    }
    assert shares[..|policies|] == shares;
    if nowReplicas != replicas {
      diffReplicas := replicas - nowReplicas;
    }
  }

  /** Step one for one cluster: what clamping takes or gives moves into the debt. */
  method FirstReplaceReplicasByWeight(share: Share, replicas: int, p: SchedulePolicy, model: FirstReplaceReplicasModel)
    returns (r: int)
    modifies model`diffReplicas
    ensures r == Clamp(share(replicas, model.totalWeight, p.weight), p.min, p.max)
    ensures p.min <= p.max ==> NearestInRange(r, share(replicas, model.totalWeight, p.weight), p.min, p.max)
    ensures r + model.diffReplicas == share(replicas, model.totalWeight, p.weight) + old(model.diffReplicas)
  {
    r := share(replicas, model.totalWeight, p.weight);
    if r < p.min {
      model.diffReplicas := model.diffReplicas - (p.min - r);
      r := p.min;
    } else if r > p.max {
      model.diffReplicas := model.diffReplicas + (r - p.max);
      r := p.max;
    }
  }

  /** The even fill of step two. */
  method FillReplicas(policies: seq<SchedulePolicy>, replicas: array<int>, diffReplicas: int,
                      ghost list: seq<SchedulePolicy>)
    returns (addNum: int)
    requires replicas.Length == |policies| > 0 && diffReplicas != 0
    modifies replicas
    ensures State(replicas[..], list, 0, addNum)
      == StepTwo(policies, old(replicas[..]), diffReplicas > 0, Abs(diffReplicas), list)
  {
    var fillNum: int;
    if diffReplicas > 0 {
      fillNum, addNum := diffReplicas / |policies|, diffReplicas % |policies|;
    } else {
      fillNum, addNum := -diffReplicas / |policies|, -diffReplicas % |policies|;
    }
    SplitIsDivision(Abs(diffReplicas), |policies|);
    addNum := FillBy(policies, replicas, diffReplicas, fillNum, addNum);
  }

  method FillBy(policies: seq<SchedulePolicy>, replicas: array<int>, diffReplicas: int, fillNum: int, rest: int)
    returns (addNum: int)
    requires replicas.Length == |policies| && diffReplicas != 0
    modifies replicas
    ensures replicas[..] == Filled(policies, old(replicas[..]), diffReplicas > 0, fillNum)
    ensures addNum == rest + Sum(Shorts(policies, old(replicas[..]), diffReplicas > 0, fillNum))
  {
    ghost var was := replicas[..];
    ghost var shorts := Shorts(policies, was, diffReplicas > 0, fillNum);
    ghost var filled := Filled(policies, was, diffReplicas > 0, fillNum);
    addNum := rest;
    for j := 0 to |policies|
      invariant forall k :: 0 <= k < j ==> replicas[k] == filled[k]
      invariant forall k :: j <= k < |policies| ==> replicas[k] == was[k]
      invariant addNum == rest + Sum(shorts[..j])
    {
      SumSnoc(shorts, j);
      var policyMaxOrMin, toMaxOrMin;
      if diffReplicas > 0 {
        policyMaxOrMin := policies[j].max;
        toMaxOrMin := policyMaxOrMin - replicas[j];
      } else {
        policyMaxOrMin := policies[j].min;
        toMaxOrMin := replicas[j] - policyMaxOrMin;
      }
      if toMaxOrMin < fillNum {
        replicas[j] := policyMaxOrMin;
        addNum := addNum + fillNum - toMaxOrMin;
      } else if diffReplicas > 0 {
        replicas[j] := replicas[j] + fillNum;
      } else {
        replicas[j] := replicas[j] - fillNum;
      }
    }
    assert shorts[..|policies|] == shorts;
    assert replicas[..] == filled;
  }

  /** The loop body at one policy. */
  method VisitPolicy(policies: seq<SchedulePolicy>, replicas: array<int>, j: nat, diffReplicas: int, addNum: int,
                     sortPolicy: SortPolicy)
    returns (newAddNum: int)
    requires j < replicas.Length == |policies| && diffReplicas != 0 && 0 <= sortPolicy.idx < |sortPolicy.list|
    modifies replicas, sortPolicy
    ensures State(replicas[..], sortPolicy.list, sortPolicy.idx, newAddNum)
      == Visit(policies, diffReplicas > 0, old(State(replicas[..], sortPolicy.list, sortPolicy.idx, addNum)), j)
  {
    newAddNum := addNum;
    if policies[j].weight == sortPolicy.list[sortPolicy.idx].weight
      && policies[j].name == sortPolicy.list[sortPolicy.idx].name {
      if (diffReplicas > 0 && replicas[j] < policies[j].max) || (diffReplicas < 0 && replicas[j] > policies[j].min) {
        replicas[j] := if diffReplicas > 0 then replicas[j] + 1 else replicas[j] - 1;
        newAddNum := addNum - 1;
        if sortPolicy.idx == |sortPolicy.list| - 1 {
          sortPolicy.idx := 0;
        } else {
          sortPolicy.idx := sortPolicy.idx + 1;
        }
      } else {
        sortPolicy.list := sortPolicy.list[..sortPolicy.idx] + sortPolicy.list[sortPolicy.idx + 1..];
        if sortPolicy.idx == |sortPolicy.list| {
          sortPolicy.idx := 0;
        }
      }
    }
  }

  /** Step two: the even fill, then the round robin over whole sweeps until nothing remains or
      the list is empty. */
  method ReplaceReplicasByWeight(policies: seq<SchedulePolicy>, replicas: array<int>, diffReplicas: int,
                                 sortPolicy: SortPolicy)
    requires replicas.Length == |policies| > 0 && diffReplicas != 0
    requires IsSortOf(sortPolicy.list, policies) && sortPolicy.idx == 0
    modifies replicas, sortPolicy
    ensures replicas[..] == SpreadOwed(policies, old(replicas[..]), diffReplicas > 0, Abs(diffReplicas),
      old(sortPolicy.list), true)
  {
    StepTwoStarts(policies, replicas[..], diffReplicas > 0, Abs(diffReplicas), sortPolicy.list);
    var addNum := FillReplicas(policies, replicas, diffReplicas, sortPolicy.list);
    RoundRobinLoop(policies, replicas, diffReplicas, addNum, sortPolicy);
  }

  method RoundRobinLoop(policies: seq<SchedulePolicy>, replicas: array<int>, diffReplicas: int, addNum: int,
                        sortPolicy: SortPolicy)
    requires replicas.Length == |policies| > 0 && diffReplicas != 0 && sortPolicy.list != []
    requires Wf(policies, diffReplicas > 0, State(replicas[..], sortPolicy.list, sortPolicy.idx, addNum))
    modifies replicas, sortPolicy
    ensures replicas[..] == Rounds(policies, diffReplicas > 0,
      old(State(replicas[..], sortPolicy.list, sortPolicy.idx, addNum))).replicas
  {
    ghost var up := diffReplicas > 0;
    ghost var cur := State(replicas[..], sortPolicy.list, sortPolicy.idx, addNum);
    ghost var end := Rounds(policies, up, cur);
    var add := addNum;
    while add != 0
      invariant cur == State(replicas[..], sortPolicy.list, sortPolicy.idx, add)
      invariant Wf(policies, up, cur) && cur.list != []
      invariant Rounds(policies, up, cur) == end
      decreases Measure(policies, up, cur)
    {
      ghost var swept := Sweep(policies, up, cur, 0);
      for j := 0 to |policies|
        invariant cur == State(replicas[..], sortPolicy.list, sortPolicy.idx, add)
        invariant Wf(policies, up, cur) && cur.list != []
        invariant Sweep(policies, up, cur, j) == swept
      {
        VisitStep(policies, up, cur, j);
        cur := Visit(policies, up, cur, j);
        add := VisitPolicy(policies, replicas, j, diffReplicas, add, sortPolicy);
        if |sortPolicy.list| == 0 {
          return;
        }
      }
    }
  }

  /** Step one over all policies: counts and debt together stay at Replicas. */
  method FirstPass(share: Share, replicas: int, policies: seq<SchedulePolicy>, result: array<int>,
                   model: FirstReplaceReplicasModel)
    requires result.Length == |policies| && model.totalWeight == Sum(Weights(policies))
    requires model.diffReplicas == replicas - Sum(Shares(share, replicas, model.totalWeight, policies))
    modifies result, model`diffReplicas
    ensures result[..] == ClampedShares(share, replicas, policies)
    ensures Sum(result[..]) + model.diffReplicas == replicas
  {
    hide NearestInRange;
    ghost var base := ClampedShares(share, replicas, policies);
    ghost var shares := Shares(share, replicas, model.totalWeight, policies);
    ghost var diff := model.diffReplicas;
    for j := 0 to |policies|
      invariant forall k :: 0 <= k < j ==> result[k] == base[k]
      invariant Sum(base[..j]) + model.diffReplicas == Sum(shares[..j]) + diff
    {
      SumSnoc(base, j);
      SumSnoc(shares, j);
      var r := FirstReplaceReplicasByWeight(share, replicas, policies[j], model);
      result[j] := r;
    }
    assert base[..|policies|] == base && shares[..|policies|] == shares;
    assert result[..] == base;
  }

  /** generateBindingByWeighted for one resource, without its cluster names: both steps.
      `sorted` is what sort.Slice made of the policies. */
  method ScheduleByWeight(share: Share, replicas: int, policies: seq<SchedulePolicy>, sorted: seq<SchedulePolicy>)
    returns (result: array<int>)
    requires policies != [] && IsSortOf(sorted, policies)
    ensures fresh(result) && result[..] == AsWritten(share, replicas, policies, sorted)
    ensures forall k: int ::
      Divides(replicas, policies, k) && ExactShares(share, replicas, WeightSum(policies), policies, k) ==>
        Proportional(policies, result[..], k)
  {
    forall k: int | Divides(replicas, policies, k) && ExactShares(share, replicas, WeightSum(policies), policies, k)
      ensures Proportional(policies, AsWritten(share, replicas, policies, sorted), k)
    {
      WeightedIsProportional(share, replicas, policies, sorted, k);
    }
    var totalWeight, diff := CalculateWeight(share, replicas, policies);
    var sortPolicy := new SortPolicy(sorted);
    var model := new FirstReplaceReplicasModel(totalWeight, diff);
    result := new int[|policies|];
    FirstPass(share, replicas, policies, result, model);
    if model.diffReplicas != 0 {
      ReplaceReplicasByWeight(policies, result, model.diffReplicas, sortPolicy);
    }
  }
}
