/** The loops that check a policy's clusters and write the cluster names of its binding. */
module BindingController {
  import opened Snapshot
  import opened Failover
  import opened FailoverWalk
  import opened Bindings

  /** How a call ends: without error, with the error of a failed Get, in an index panic, or not at all. A
      method cannot go on for ever; where the source does, it says so. */
  datatype Outcome = Fine | GetError | Panic | NeverEnds

  class FailoverPolicyIndex {
    var doneIndex: nat
    var clusterSetIndex: nat
    var unavailableFailoverClusterIndex: nat
    var failoverIndex: nat

    constructor ()
      ensures Value() == START
    {
      doneIndex, clusterSetIndex, unavailableFailoverClusterIndex, failoverIndex := 0, 0, 0, 0;
    }

    function Value(): Cursor
      reads this
    {
      Cursor(doneIndex, clusterSetIndex, unavailableFailoverClusterIndex, failoverIndex)
    }
  }

  /** One resource of a binding under construction. */
  class BoundResource {
    const name: string
    var clusters: seq<string>

    constructor (name: string)
      ensures this.name == name && clusters == []
    {
      this.name, clusters := name, [];
    }
  }

  /** failoverPolicyCheck. */
  method FailoverPolicyCheck(w: World, failover: seq<FailoverPolicy>)
    returns (failoverCount: nat, unavailable: seq<string>)
    requires Readable(w)
    ensures failoverCount == FailoverCount(w, failover) && unavailable == Unavailable(w, failover)
  {
    failoverCount, unavailable := 0, [];
    for i := 0 to |failover|
      invariant failoverCount + FailoverCount(w, failover[i..]) == FailoverCount(w, failover)
      invariant unavailable + Unavailable(w, failover[i..]) == Unavailable(w, failover)
    {
      CheckStep(w, failover, i, unavailable);
      var count, down := CheckEntry(w, failover[i]);
      failoverCount, unavailable := failoverCount + count, unavailable + down;
    }
    assert unavailable + [] == unavailable;
  }

  lemma CheckStep(w: World, failover: seq<FailoverPolicy>, i: nat, sofar: seq<string>)
    requires Readable(w) && i < |failover|
    ensures FailoverCount(w, failover[i..]) == EntryCount(w, failover[i]) + FailoverCount(w, failover[i + 1..])
    ensures sofar + Unavailable(w, failover[i..])
      == sofar + EntryDown(w, failover[i]) + Unavailable(w, failover[i + 1..])
  {
    assert failover[i..][0] == failover[i] && failover[i..][1..] == failover[i + 1..];
    var a, b := EntryDown(w, failover[i]), Unavailable(w, failover[i + 1..]);
    assert sofar + (a + b) == sofar + a + b;
  }

  /** One failover entry: a cluster, the members of a set, or a set that cannot be read. */
  method CheckEntry(w: World, entry: FailoverPolicy) returns (count: nat, down: seq<string>)
    requires Readable(w)
    ensures count == EntryCount(w, entry) && down == EntryDown(w, entry)
  {
    count, down := 0, [];
    match entry
    case OfCluster(name) =>
      if !Online(w, name) {
        down := [name];
      } else {
        count := 1;
      }
    case OfClusterSet(name) =>
      if name !in w.sets {
        down := [name];
      } else {
        var clusterList := GetClusterListByClusterSet(w, w.sets[name]);
        count, down := CheckMembers(w, clusterList);
      }
    case OfOtherType(_) =>
  }

  method CheckMembers(w: World, clusterList: seq<string>) returns (count: nat, down: seq<string>)
    ensures count == |OnlineOf(w, clusterList)| && down == OfflineOf(w, clusterList)
  {
    count, down := 0, [];
    for i := 0 to |clusterList|
      invariant count + |OnlineOf(w, clusterList[i..])| == |OnlineOf(w, clusterList)|
      invariant down + OfflineOf(w, clusterList[i..]) == OfflineOf(w, clusterList)
    {
      assert clusterList[i..][0] == clusterList[i] && clusterList[i..][1..] == clusterList[i + 1..];
      if !Online(w, clusterList[i]) {
        down := down + [clusterList[i]];
      } else {
        count := count + 1;
      }
    }
  }

  /** checkClusters on the clusters of the policy or of its cluster set. */
  method CheckClusters(w: World, primary: seq<string>, failover: seq<FailoverPolicy>) returns (r: Check)
    requires Readable(w)
    ensures r == CheckOf(w, primary, failover)
    ensures r.Checked? <==> |OfflineOf(w, primary)| <= |OnlineOf(w, Flat(w, failover))|
  {
    hide OnlineOf, OfflineOf, Flat, FailoverCount, Unavailable, Online;
    CheckAccepts(w, primary, failover);
    var unavailableIndex: seq<nat> := [];
    for i := 0 to |primary|
      invariant unavailableIndex + DownPositions(w, primary, i) == DownPositions(w, primary, 0)
    {
      if !Online(w, primary[i]) {
        unavailableIndex := unavailableIndex + [i];
      }
    }
    if |failover| > 0 && |unavailableIndex| > 0 {
      var failoverCount, unavailable := FailoverPolicyCheck(w, failover);
      if |unavailableIndex| > failoverCount {
        return Rejected;
      }
      return Checked(unavailableIndex, unavailable);
    } else if |unavailableIndex| > 0 {
      return Rejected;
    }
    return Checked([], []);
  }

  /** doFailoverPolicy: appends the cluster it settles on. On an entry of another type its loop never moves. */
  method DoFailoverPolicy(w: World, index: FailoverPolicyIndex, failover: seq<FailoverPolicy>, resource: BoundResource,
                          unavailable: seq<string>)
    returns (o: Outcome)
    requires Readable(w) && (unavailable != [] ==> index.unavailableFailoverClusterIndex < |unavailable|)
    modifies index, resource`clusters
    ensures var r, was := Advance(w, failover, unavailable, old(index.Value())), old(resource.clusters);
      && o == OutcomeOf(r)
      && (o == GetError <==> r.NotFound?) && (o == Panic <==> r.IndexPanic?) && (o == NeverEnds <==> r.Spins?)
      && (r.Placed? ==> index.Value() == r.cursor && resource.clusters == was + [r.name])
      && (!r.Placed? ==> resource.clusters == was)
  {
    ghost var result := Advance(w, failover, unavailable, index.Value());
    while true
      invariant unavailable != [] ==> index.unavailableFailoverClusterIndex < |unavailable|
      invariant resource.clusters == old(resource.clusters)
      invariant Advance(w, failover, unavailable, index.Value()) == result
      decreases |failover| - index.failoverIndex, |EntryList(w, failover, index.Value())| - index.clusterSetIndex
    {
      if index.failoverIndex >= |failover| {
        return Panic;
      }
      var entry := failover[index.failoverIndex];
      if entry.OfCluster? {
        if |unavailable| == 0 || entry.name != unavailable[index.unavailableFailoverClusterIndex] {
          resource.clusters := resource.clusters + [entry.name];
          index.doneIndex := index.doneIndex + 1;
          index.failoverIndex := index.failoverIndex + 1;
          return Fine;
        }
        index.failoverIndex := index.failoverIndex + 1;
        SkipUnavailable(index, unavailable);
      } else if entry.OfClusterSet? {
        if entry.name !in w.sets {
          return GetError;
        }
        var clusterList := GetClusterListByClusterSet(w, w.sets[entry.name]);
        if index.clusterSetIndex >= |clusterList| {
          return Panic;
        }
        if |unavailable| == 0
          || clusterList[index.clusterSetIndex] != unavailable[index.unavailableFailoverClusterIndex] {
          resource.clusters := resource.clusters + [clusterList[index.clusterSetIndex]];
          index.doneIndex := index.doneIndex + 1;
          if index.clusterSetIndex < |clusterList| - 1 {
            index.clusterSetIndex := index.clusterSetIndex + 1;
          } else {
            index.clusterSetIndex := 0;
            index.failoverIndex := index.failoverIndex + 1;
          }
          return Fine;
        }
        index.clusterSetIndex := index.clusterSetIndex + 1;
        SkipUnavailable(index, unavailable);
      } else {
        return NeverEnds;
      }
    }
  }

  function OutcomeOf(r: Advanced): Outcome {
    match r
    case Placed(_, _) => Fine
    case NotFound => GetError
    case IndexPanic => Panic
    case Spins => NeverEnds
  }

  method SkipUnavailable(index: FailoverPolicyIndex, unavailable: seq<string>)
    requires unavailable != [] && index.unavailableFailoverClusterIndex < |unavailable|
    modifies index`unavailableFailoverClusterIndex
    ensures index.Value() == SkipOne(unavailable, old(index.Value()))
    ensures index.unavailableFailoverClusterIndex < |unavailable|
  {
    if index.unavailableFailoverClusterIndex < |unavailable| - 1 {
      index.unavailableFailoverClusterIndex := index.unavailableFailoverClusterIndex + 1;
    }
  }

  function OutcomeOfBound(b: Bound): Outcome {
    match b
    case Names(_) => Fine
    case GetFailed => GetError
    case Panicked => Panic
    case NeverReturns => NeverEnds
  }

  /** The cluster names of one resource. */
  method BindClusters(w: World, primary: seq<string>, failIndex: seq<nat>, failover: seq<FailoverPolicy>,
                      unavailable: seq<string>, resource: BoundResource)
    returns (o: Outcome)
    requires Readable(w) && resource.clusters == []
    modifies resource`clusters
    ensures var b := Bind(w, primary, failIndex, failover, unavailable);
      && o == OutcomeOfBound(b) && (b.Names? ==> resource.clusters == b.names)
      && (o == GetError <==> b.GetFailed?) && (o == Panic <==> b.Panicked?) && (o == NeverEnds <==> b.NeverReturns?)
  {
    var index := new FailoverPolicyIndex();
    ghost var result := Bind(w, primary, failIndex, failover, unavailable);
    for j := 0 to |primary|
      invariant fresh(index) && (unavailable != [] ==> index.unavailableFailoverClusterIndex < |unavailable|)
      invariant BindFrom(w, primary, failIndex, failover, unavailable, j, resource.clusters, index.Value()) == result
    {
      if |failIndex| > 0 {
        if index.doneIndex < |failIndex| && j == failIndex[index.doneIndex] {
          AdvanceCounts(w, failover, unavailable, index.Value());
          o := DoFailoverPolicy(w, index, failover, resource, unavailable);
          if o != Fine {
            return;
          }
        } else {
          resource.clusters := resource.clusters + [primary[j]];
        }
      } else {
        resource.clusters := resource.clusters + [primary[j]];
      }
    }
    o := Fine;
  }

  /** Without error exactly if the walk has a name for every offline primary, and otherwise as the walk stops. */
  predicate EndsWithWalk(w: World, primary: seq<string>, failover: seq<FailoverPolicy>, o: Outcome)
    requires Readable(w) && CheckOf(w, primary, failover).Checked?
  {
    var check := CheckOf(w, primary, failover);
    var stop := WalkStop(w, failover, check.unavailable);
    && (o == Fine <==> |OfflineOf(w, primary)| <= |Walk(w, failover, check.unavailable)|)
    && (o == GetError ==> stop.NotFound?) && (o == Panic ==> stop.IndexPanic?) && (o == NeverEnds ==> stop.Spins?)
  }

  lemma OutcomeIsWalks(w: World, primary: seq<string>, failover: seq<FailoverPolicy>)
    requires Readable(w) && CheckOf(w, primary, failover).Checked?
    ensures var check := CheckOf(w, primary, failover);
      var b := Bind(w, primary, check.failIndex, failover, check.unavailable);
      && EndsWithWalk(w, primary, failover, OutcomeOfBound(b))
      && (b.Names? ==> Available(w, primary, b.names)) && (Passable(w, failover) ==> b.Names?)
  {
    hide CheckOf, Bind, OfflineOf, Walk, WalkStop;
    GeneratedExactly(w, primary, failover);
  }

  /** The binding of a policy: the check, then every resource in turn, each with its own index model. */
  method GenerateBinding(w: World, resourceNames: seq<string>, primary: seq<string>, failover: seq<FailoverPolicy>)
    returns (accepted: bool, o: Outcome, binding: seq<BoundResource>)
    requires Readable(w)
    ensures accepted == CheckOf(w, primary, failover).Checked?
    ensures accepted <==> |OfflineOf(w, primary)| <= |OnlineOf(w, Flat(w, failover))|
    ensures accepted && (Passable(w, failover) || resourceNames == []) ==> o == Fine
    ensures accepted && resourceNames != [] ==> EndsWithWalk(w, primary, failover, o)
    ensures accepted && o == Fine ==>
      |binding| == |resourceNames| && forall i :: 0 <= i < |binding| ==>
        binding[i].name == resourceNames[i] && Available(w, primary, binding[i].clusters)
    ensures accepted && resourceNames != [] ==>
      var check := CheckOf(w, primary, failover);
      var bound := Bind(w, primary, check.failIndex, failover, check.unavailable);
      && o == OutcomeOfBound(bound)
      && (o == Fine ==> |binding| == |resourceNames| && forall i :: 0 <= i < |binding| ==>
            binding[i].name == resourceNames[i] && binding[i].clusters == bound.names)
  {
    hide OfflineOf, OnlineOf, Flat, Walk, WalkStop, Bind, Passable, Available, EndsWithWalk;
    accepted, o, binding := true, Fine, [];
    var check := CheckClusters(w, primary, failover);
    if check.Rejected? {
      accepted := false;
      return;
    }
    ghost var bound := Bind(w, primary, check.failIndex, failover, check.unavailable);
    OutcomeIsWalks(w, primary, failover);
    for i := 0 to |resourceNames|
      invariant o == Fine && |binding| == i && (i > 0 ==> bound.Names?)
      invariant forall k :: 0 <= k < i ==> fresh(binding[k])
      invariant forall k :: 0 <= k < i ==> binding[k].name == resourceNames[k] && binding[k].clusters == bound.names
    {
      var resource := new BoundResource(resourceNames[i]);
      o := BindClusters(w, primary, check.failIndex, failover, check.unavailable, resource);
      if o != Fine {
        return;
      }
      binding := binding + [resource];
    }
  }
}
