/** What step one gives a cluster, said without its loops: the share of its weight in the total weight,
    or the nearest count its range allows. */
module ProportionalShares {
  import opened Sums
  import opened Policies
  import opened RoundRobin
  import opened WeightedScheduler
  import opened RoleRoundRobin
  import opened RoleScheduler

  /** Among the counts in a range, the nearest to a share; an empty range counts as its upper end. */
  predicate NearestInRange(count: int, share: int, low: int, high: int) {
    if low > high then count == high
    else
      && low <= count <= high
      && (low <= share <= high ==> count == share) && (share < low ==> count == low) && (share > high ==> count == high)
  }

  // ---------- by weight ----------

  function WeightSum(policies: seq<SchedulePolicy>): int {
    if policies == [] then 0 else policies[0].weight + WeightSum(policies[1..])
  }

  lemma {:induction false} WeightsAdd(policies: seq<SchedulePolicy>)
    ensures Sum(Weights(policies)) == WeightSum(policies)
  {
    if policies != [] {
      WeightsAdd(policies[1..]);
      assert Weights(policies)[1..] == Weights(policies[1..]);
    }
  }

  /** Step one by weight: the share of the cluster's weight in the sum of all weights, or the nearest count
      in the cluster's range. */
  lemma SharesAreNearest(share: Share, replicas: int, policies: seq<SchedulePolicy>, i: nat)
    requires i < |policies| && policies[i].min <= policies[i].max
    ensures NearestInRange(ClampedShares(share, replicas, policies)[i],
      share(replicas, WeightSum(policies), policies[i].weight), policies[i].min, policies[i].max)
  {
    WeightsAdd(policies);
  }

  /** Replicas is k for each unit of weight, and k times its weight fits every cluster. */
  predicate Divides(replicas: int, policies: seq<SchedulePolicy>, k: int) {
    && WeightSum(policies) > 0 && replicas == k * WeightSum(policies)
    && forall i :: 0 <= i < |policies| ==> policies[i].min <= k * policies[i].weight <= policies[i].max
  }

  /** The share function makes no error where the division leaves nothing over. */
  predicate ExactShares(share: Share, replicas: int, totalWeight: int, policies: seq<SchedulePolicy>, k: int) {
    forall i :: 0 <= i < |policies| ==> share(replicas, totalWeight, policies[i].weight) == k * policies[i].weight
  }

  predicate Proportional(policies: seq<SchedulePolicy>, counts: seq<int>, k: int) {
    |counts| == |policies| && forall i :: 0 <= i < |policies| ==> counts[i] == k * policies[i].weight
  }

  lemma {:induction false} ProportionalSum(policies: seq<SchedulePolicy>, counts: seq<int>, k: int)
    requires Proportional(policies, counts, k)
    ensures Sum(counts) == k * WeightSum(policies)
  {
    if policies != [] {
      ProportionalSum(policies[1..], counts[1..], k);
      Distributes(k, policies[0].weight, WeightSum(policies[1..]));
    }
  }

  lemma Distributes(k: int, a: int, b: int)
    ensures k * (a + b) == k * a + k * b
  {
  }

  /** Where Replicas divides evenly by weight and fits, every cluster gets exactly its part. */
  lemma WeightedIsProportional(share: Share, replicas: int, policies: seq<SchedulePolicy>, list: seq<SchedulePolicy>,
                               k: int)
    requires policies != [] && IsSortOf(list, policies) && Divides(replicas, policies, k)
    requires ExactShares(share, replicas, WeightSum(policies), policies, k)
    ensures Proportional(policies, AsWritten(share, replicas, policies, list), k)
  {
    WeightsAdd(policies);
    ProportionalSum(policies, ClampedShares(share, replicas, policies), k);
  }

  /** Integer division is such a share function. */
  lemma FloorSharesAreExact(replicas: int, policies: seq<SchedulePolicy>, k: int)
    requires Divides(replicas, policies, k)
    ensures ExactShares(FloorShare, replicas, WeightSum(policies), policies, k)
  {
    forall i | 0 <= i < |policies|
      ensures FloorShare(replicas, WeightSum(policies), policies[i].weight) == k * policies[i].weight
    {
      DivisionIsExact(k, WeightSum(policies), policies[i].weight);
    }
  }

  lemma DivisionIsExact(k: int, total: int, weight: int)
    requires total > 0
    ensures k * total * weight / total == k * weight
  {
    var q, x := k * weight, k * total * weight / total;
    assert k * total * weight == total * q;
    assert total * q == total * x + (total * q) % total;
    if x < q {
      ProductAtLeast(total, q, x);
    } else if x > q {
      ProductAtLeast(total, x, q);
    }
  }

  // ---------- by role ----------

  /** How many clusters have the role. */
  function ClustersWith(clusters: seq<ClusterSetTarget>, role: string): nat {
    if clusters == [] then 0 else ClustersWith(clusters[1..], role) + if clusters[0].role == role then 1 else 0
  }

  /** Every policy's weight, once for every cluster with its role. */
  function RoleWeightSum(policies: seq<SchedulePolicy>, clusters: seq<ClusterSetTarget>): int {
    if policies == [] then 0
    else policies[0].weight * ClustersWith(clusters, policies[0].role) + RoleWeightSum(policies[1..], clusters)
  }

  lemma {:induction false} TermsAdd(p: SchedulePolicy, clusters: seq<ClusterSetTarget>, f: SchedulePolicy -> int)
    ensures Sum(MatchTerms(p, clusters, f)) == f(p) * ClustersWith(clusters, p.role)
  {
    if clusters != [] {
      TermsAdd(p, clusters[1..], f);
      assert MatchTerms(p, clusters, f)[1..] == MatchTerms(p, clusters[1..], f);
      Distributes(f(p), ClustersWith(clusters[1..], p.role), if clusters[0].role == p.role then 1 else 0);
    }
  }

  lemma {:induction false} RoleWeightsAdd(policies: seq<SchedulePolicy>, clusters: seq<ClusterSetTarget>)
    ensures PairSum(policies, clusters, WeightOf()) == RoleWeightSum(policies, clusters)
  {
    if policies != [] {
      TermsAdd(policies[0], clusters, WeightOf());
      RoleWeightsAdd(policies[1..], clusters);
    }
  }

  /** The first policy with the role, if there is one. */
  predicate FirstPolicy(policies: seq<SchedulePolicy>, role: string, i: nat) {
    i < |policies| && policies[i].role == role && forall l :: 0 <= l < i ==> policies[l].role != role
  }

  lemma {:induction false} FirstIsInstance(policies: seq<SchedulePolicy>, role: string, i: nat)
    requires FirstPolicy(policies, role, i)
    ensures InstanceFor(policies, role) == policies[i]
  {
    if i > 0 {
      assert forall l :: 0 <= l < |policies| - 1 ==> policies[1..][l] == policies[l + 1];
      FirstIsInstance(policies[1..], role, i - 1);
    }
  }

  lemma {:induction false} NoneIsNoInstance(policies: seq<SchedulePolicy>, role: string)
    requires forall l :: 0 <= l < |policies| ==> policies[l].role != role
    ensures InstanceFor(policies, role) == SchedulePolicy("", "", 0, 0, 0)
  {
    if policies != [] {
      assert forall l :: 0 <= l < |policies| - 1 ==> policies[1..][l] == policies[l + 1];
      NoneIsNoInstance(policies[1..], role);
    }
  }

  /** Step one by role: the share of the first policy with the cluster's role in the weight of all clusters, or the
      nearest count in that policy's range; nothing for a cluster whose role no policy has. */
  lemma RoleSharesAreNearest(share: Share, replicas: int, policies: seq<SchedulePolicy>,
                             clusters: seq<ClusterSetTarget>, j: nat)
    requires j < |clusters|
    ensures var count := RoleShares(share, replicas, policies, clusters)[j];
      && (forall i: nat :: FirstPolicy(policies, clusters[j].role, i) ==>
            NearestInRange(count, share(replicas, RoleWeightSum(policies, clusters), policies[i].weight),
                           policies[i].min, policies[i].max))
      && ((forall i :: 0 <= i < |policies| ==> policies[i].role != clusters[j].role) ==> count == 0)
  {
    RoleWeightsAdd(policies, clusters);
    var role := clusters[j].role;
    forall i: nat | FirstPolicy(policies, role, i) ensures InstanceFor(policies, role) == policies[i] {
      FirstIsInstance(policies, role, i);
    }
    if forall i :: 0 <= i < |policies| ==> policies[i].role != role {
      NoneIsNoInstance(policies, role);
    }
  }

  /** Replicas is k for each unit of weight over all clusters, the shares are exact, and they fit. */
  predicate DividesByRole(share: Share, replicas: int, policies: seq<SchedulePolicy>, clusters: seq<ClusterSetTarget>,
                          k: int) {
    var total := RoleWeightSum(policies, clusters);
    && replicas == k * total && ExactShares(share, replicas, total, policies, k)
    && forall i :: 0 <= i < |policies| ==> policies[i].min <= k * policies[i].weight <= policies[i].max
  }

  /** Every cluster has k for each unit of its policy's weight, or nothing without a policy. */
  ghost predicate ProportionalByRole(policies: seq<SchedulePolicy>, clusters: seq<ClusterSetTarget>, counts: seq<int>,
                                     k: int) {
    && |counts| == |clusters|
    && forall j :: 0 <= j < |clusters| ==>
         && (forall i: nat :: FirstPolicy(policies, clusters[j].role, i) ==> counts[j] == k * policies[i].weight)
         && ((forall i :: 0 <= i < |policies| ==> policies[i].role != clusters[j].role) ==> counts[j] == 0)
  }

  lemma {:induction false} ExactPairs(policies: seq<SchedulePolicy>, clusters: seq<ClusterSetTarget>,
                                      f: SchedulePolicy -> int, k: int)
    requires forall i :: 0 <= i < |policies| ==> f(policies[i]) == k * policies[i].weight
    ensures PairSum(policies, clusters, f) == k * RoleWeightSum(policies, clusters)
  {
    if policies != [] {
      var p, n := policies[0], ClustersWith(clusters, policies[0].role);
      TermsAdd(p, clusters, f);
      assert forall i :: 0 <= i < |policies| - 1 ==> policies[1..][i] == policies[i + 1];
      ExactPairs(policies[1..], clusters, f, k);
      Regroups(k, p.weight, n);
      Distributes(k, p.weight * n, RoleWeightSum(policies[1..], clusters));
    }
  }

  lemma Regroups(k: int, a: int, b: int)
    ensures k * a * b == k * (a * b)
  {
  }

  lemma {:induction false} FirstOrNone(policies: seq<SchedulePolicy>, role: string)
    ensures (exists i: nat :: FirstPolicy(policies, role, i))
      || forall i :: 0 <= i < |policies| ==> policies[i].role != role
  {
    if policies != [] {
      var rest := policies[1..];
      FirstOrNone(rest, role);
      if policies[0].role == role {
        assert FirstPolicy(policies, role, 0);
      } else if i: nat :| FirstPolicy(rest, role, i) {
        assert forall l :: 0 < l < |policies| ==> policies[l] == rest[l - 1];
        assert FirstPolicy(policies, role, i + 1);
      }
    }
  }

  /** A share that fits is not clamped. */
  lemma FittingShare(share: Share, replicas: int, policies: seq<SchedulePolicy>, clusters: seq<ClusterSetTarget>,
                     k: int, j: nat)
    requires DividesByRole(share, replicas, policies, clusters, k) && j < |clusters|
    ensures var f := ShareOf(share, replicas, RoleWeightSum(policies, clusters));
      RoleShares(share, replicas, policies, clusters)[j] == OwnTerms(policies, clusters, f)[j]
  {
    RoleWeightsAdd(policies, clusters);
    var role := clusters[j].role;
    FirstOrNone(policies, role);
    if i: nat :| FirstPolicy(policies, role, i) {
      FirstIsInstance(policies, role, i);
    } else {
      NoneIsNoInstance(policies, role);
    }
  }

  /** Where Replicas divides evenly and fits, every cluster gets exactly the part of its role's weight, even with
      two policies for a role. */
  lemma RoleIsProportional(share: Share, replicas: int, policies: seq<SchedulePolicy>, clusters: seq<ClusterSetTarget>,
                           list: seq<SchedulePolicy>, k: int, asWritten: bool)
    requires clusters != [] && list != [] && DividesByRole(share, replicas, policies, clusters, k)
    ensures var base := RoleShares(share, replicas, policies, clusters);
      var r := RoleSpread(Instances(policies, clusters), base, RoleAim(share, replicas, policies, clusters), list,
        asWritten);
      r.Returned? && ProportionalByRole(policies, clusters, r.state.replicas, k)
  {
    var f := ShareOf(share, replicas, RoleWeightSum(policies, clusters));
    RoleWeightsAdd(policies, clusters);
    ExactPairs(policies, clusters, f, k);
    forall j | 0 <= j < |clusters|
      ensures RoleShares(share, replicas, policies, clusters)[j] == OwnTerms(policies, clusters, f)[j]
    {
      FittingShare(share, replicas, policies, clusters, k, j);
      RoleSharesAreNearest(share, replicas, policies, clusters, j);
    }
    assert RoleShares(share, replicas, policies, clusters) == OwnTerms(policies, clusters, f);
    BaseIsProportional(share, replicas, policies, clusters, k);
  }

  lemma BaseIsProportional(share: Share, replicas: int, policies: seq<SchedulePolicy>, clusters: seq<ClusterSetTarget>,
                           k: int)
    requires DividesByRole(share, replicas, policies, clusters, k)
    ensures ProportionalByRole(policies, clusters, RoleShares(share, replicas, policies, clusters), k)
  {
    forall j | 0 <= j < |clusters| {
      RoleSharesAreNearest(share, replicas, policies, clusters, j);
    }
  }

  /** Whatever k is: where Replicas divides evenly, the schedule returns with the exact parts. */
  ghost predicate DividedByRole(share: Share, replicas: int, policies: seq<SchedulePolicy>,
                                clusters: seq<ClusterSetTarget>, returned: bool, counts: seq<int>) {
    forall k: int :: DividesByRole(share, replicas, policies, clusters, k) ==>
      returned && ProportionalByRole(policies, clusters, counts, k)
  }

  lemma RoleIsDivided(share: Share, replicas: int, policies: seq<SchedulePolicy>, clusters: seq<ClusterSetTarget>,
                      list: seq<SchedulePolicy>, asWritten: bool)
    requires clusters != [] && list != []
    ensures var base := RoleShares(share, replicas, policies, clusters);
      var r := RoleSpread(Instances(policies, clusters), base, RoleAim(share, replicas, policies, clusters), list,
        asWritten);
      if r.Returned? then DividedByRole(share, replicas, policies, clusters, true, r.state.replicas)
      else forall counts :: DividedByRole(share, replicas, policies, clusters, false, counts)
  {
    forall k: int | DividesByRole(share, replicas, policies, clusters, k) {
      RoleIsProportional(share, replicas, policies, clusters, list, k, asWritten);
    }
  }
}
