/** The monitor's side of rescheduling: which policies an offline cluster concerns. */
module Monitor {
  import opened Snapshot
  import opened Failover
  import opened Wrappers

  datatype ClusterSource = Assign | FromClusterset | OtherSource(name: string)

  datatype Policy = Policy(source: ClusterSource, policyNames: seq<string>, clusterset: string,
                           failover: seq<FailoverPolicy>, reschedule: bool)

  /** containsMap. */
  method ContainsMap(big: map<string, string>, sub: map<string, string>) returns (contained: bool)
    ensures contained <==> Selects(sub, big)
  {
    var keys := sub.Keys;
    while keys != {}
      invariant keys <= sub.Keys
      invariant forall k :: k in sub && k !in keys ==> k in big && big[k] == sub[k]
      decreases keys
    {
      var k :| k in keys;
      if k !in big || big[k] != sub[k] {
        return false;
      }
      keys := keys - {k};
    }
    contained := true;
  }

  /** The test of clusterSetContainsCluster, by the cluster's name and labels. */
  predicate Contains(clusterSet: ClusterSet, name: string, labels: map<string, string>) {
    if |clusterSet.targets| > 0 then exists i :: 0 <= i < |clusterSet.targets| && clusterSet.targets[i].name == name
    else |clusterSet.selector| > 0 && Selects(clusterSet.selector, labels)
  }

  method ClusterSetContainsCluster(clusterSet: ClusterSet, name: string, labels: map<string, string>)
    returns (contained: bool)
    ensures contained <==> Contains(clusterSet, name, labels)
  {
    if |clusterSet.targets| > 0 {
      for i := 0 to |clusterSet.targets|
        invariant forall k :: 0 <= k < i ==> clusterSet.targets[k].name != name
      {
        if clusterSet.targets[i].name == name {
          return true;
        }
      }
    } else if |clusterSet.selector| > 0 {
      contained := ContainsMap(labels, clusterSet.selector);
      return;
    }
    contained := false;
  }

  /** The monitor's test on one cluster agrees with the scheduler's list of a set. */
  lemma ContainedIsListed(w: World, clusterSet: ClusterSet, name: string)
    requires WellListed(w) && name in w.clusters
    ensures Contains(clusterSet, name, w.clusters[name].labels) <==> name in ClusterList(w, clusterSet)
  {
    if |clusterSet.targets| > 0 {
      var names := Names(clusterSet.targets);
      if i :| 0 <= i < |clusterSet.targets| && clusterSet.targets[i].name == name {
        assert names[i] == name;
      }
      if name in names {
        var i :| 0 <= i < |names| && names[i] == name;
        assert clusterSet.targets[i].name == name;
      }
    }
  }

  /** checkClusters looks at this cluster. */
  predicate Inspects(w: World, policy: Policy, name: string)
    requires Readable(w)
  {
    if policy.source.FromClusterset? then
      policy.clusterset in w.sets && name in ClusterList(w, w.sets[policy.clusterset])
    else name in policy.policyNames
  }

  /** The clusters a policy stands for, which checkClusters and the binding go through; none if its set is gone. */
  function PrimaryClusters(w: World, policy: Policy): Option<seq<string>>
    requires Readable(w)
  {
    match policy.source
    case FromClusterset =>
      if policy.clusterset in w.sets then Some(ClusterList(w, w.sets[policy.clusterset])) else None
    case _ => Some(policy.policyNames)
  }

  lemma InspectsPrimary(w: World, policy: Policy, name: string)
    requires Readable(w)
    ensures Inspects(w, policy, name) <==>
      PrimaryClusters(w, policy).Some? && name in PrimaryClusters(w, policy).value
  {
  }

  /** A policy that is marked because its cluster went offline has an offline primary cluster, and failover clusters to
      replace it. */
  lemma MarkedHasOfflinePrimary(w: World, policy: Policy, name: string)
    requires WellListed(w) && name in w.clusters && !Online(w, name) && Marks(w, policy, name)
    ensures policy.failover != [] && PrimaryClusters(w, policy).Some?
    ensures OfflineOf(w, PrimaryClusters(w, policy).value) != []
  {
    InspectsPrimary(w, policy, name);
    OfflineMember(w, PrimaryClusters(w, policy).value, name);
  }

  lemma {:induction false} OfflineMember(w: World, names: seq<string>, name: string)
    requires name in names && !Online(w, name)
    ensures name in OfflineOf(w, names)
    decreases |names|
  {
    if names[0] != name {
      OfflineMember(w, names[1..], name);
    }
  }

  /** The monitor asks at all: a source of another kind, or a cluster set without any policy entry, is passed over. */
  predicate Asked(policy: Policy) {
    policy.source.Assign? || (policy.source.FromClusterset? && policy.policyNames != [])
  }

  /** shouldReSchedule, which asks once per entry of the policy list. */
  method ShouldReSchedule(w: World, policy: Policy, name: string) returns (reschedule: bool)
    requires WellListed(w) && name in w.clusters
    ensures reschedule <==> Asked(policy) && Inspects(w, policy, name)
  {
    for i := 0 to |policy.policyNames|
      invariant policy.source.Assign? ==> name !in policy.policyNames[..i]
      invariant policy.source.FromClusterset? && i > 0 ==> !Inspects(w, policy, name)
    {
      if policy.source.Assign? {
        if policy.policyNames[i] == name {
          return true;
        }
      } else if policy.source.FromClusterset? {
        if policy.clusterset !in w.sets {
          return false;
        }
        ContainedIsListed(w, w.sets[policy.clusterset], name);
        var contained := ClusterSetContainsCluster(w.sets[policy.clusterset], name, w.clusters[name].labels);
        if contained {
          return true;
        }
      }
    }
    reschedule := false;
  }

  /** The policies as stored, and the monitor's pass over them. */
  class PolicyStore {
    var policies: seq<Policy>

    constructor (policies: seq<Policy>)
      ensures this.policies == policies
    {
      this.policies := policies;
    }

    /** policyReSchedule: a policy is marked exactly when it has failover clusters, a source that is
        asked, and the scheduler would look at the cluster; nothing else changes. */
    method PolicyReSchedule(w: World, name: string)
      requires WellListed(w) && name in w.clusters
      modifies this
      ensures |policies| == |old(policies)|
      ensures forall i :: 0 <= i < |policies| ==>
        policies[i] == old(policies)[i].(reschedule := old(policies)[i].reschedule || Marks(w, old(policies)[i], name))
    {
      for i := 0 to |policies|
        invariant |policies| == |old(policies)|
        invariant forall k :: 0 <= k < i ==>
          var before := old(policies)[k];
          policies[k] == before.(reschedule := before.reschedule || Marks(w, before, name))
        invariant forall k :: i <= k < |policies| ==> policies[k] == old(policies)[k]
      {
        if |policies[i].failover| == 0 {
          continue;
        }
        var should := ShouldReSchedule(w, policies[i], name);
        if should {
          policies := policies[i := policies[i].(reschedule := true)];
        }
      }
    }
  }

  predicate Marks(w: World, policy: Policy, name: string)
    requires Readable(w)
  {
    policy.failover != [] && Asked(policy) && Inspects(w, policy, name)
  }

  /** For every policy, by the kind of its source: a policy with failover clusters that names the cluster itself, or
      whose cluster set contains it and that lists any policy at all. */
  lemma MarksExactly(w: World, policy: Policy, name: string)
    requires WellListed(w) && name in w.clusters
    ensures Marks(w, policy, name) ==> policy.failover != []
    ensures policy.failover != [] ==>
      match policy.source
      case Assign => Marks(w, policy, name) <==> name in policy.policyNames
      case FromClusterset =>
        Marks(w, policy, name) <==>
          policy.policyNames != [] && policy.clusterset in w.sets
          && Contains(w.sets[policy.clusterset], name, w.clusters[name].labels)
      case OtherSource(_) => !Marks(w, policy, name)
  {
    if policy.clusterset in w.sets {
      ContainedIsListed(w, w.sets[policy.clusterset], name);
    }
  }

  /** A policy whose check would find the offline cluster is marked, unless it has no failover
      clusters, lists no policies for its cluster set, or has a source of another kind. */
  lemma MarksWhatTheCheckSees(w: World, policy: Policy, name: string)
    requires WellListed(w) && name in w.clusters && policy.failover != []
    requires policy.source.Assign? || policy.source.FromClusterset?
    ensures (Marks(w, policy, name) <==> Inspects(w, policy, name))
      <==> policy.source.Assign? || policy.policyNames != [] || policy.clusterset !in w.sets
           || !Contains(w.sets[policy.clusterset], name, w.clusters[name].labels)
  {
    if policy.clusterset in w.sets {
      ContainedIsListed(w, w.sets[policy.clusterset], name);
    }
  }
}
