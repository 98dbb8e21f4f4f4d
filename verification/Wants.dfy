/** What a binding wants: an object for each of its readable resources in each of that resource's clusters. */
module Wants {
  import opened Names
  import opened Wrappers
  import opened ClusterResources
  import opened BindingModel
  import opened Overrides
  import opened SyncController
  import Sync
  import SharedSync

  /** The resource of an entry of the binding; an entry without a namespace means the manager's own. */
  predicate Readable(inputs: Inputs, r: BindingResource) {
    (if r.namespace == "" then "stellaris-system" else r.namespace, r.name) in inputs.resources
  }

  function Read(inputs: Inputs, r: BindingResource): MultiClusterResource
    requires Readable(inputs, r)
  {
    inputs.resources[(if r.namespace == "" then "stellaris-system" else r.namespace, r.name)]
  }

  /** The i-th resource can be read and goes to a j-th cluster. */
  predicate Asked(inputs: Inputs, resources: seq<BindingResource>, i: int, j: int) {
    0 <= i < |resources| && 0 <= j < |resources[i].clusters| && Readable(inputs, resources[i])
  }

  /** The wanted object of this place: in the cluster's namespace, named after the binding and the kind, with the
      patched content. */
  ghost predicate AnswersTo(inputs: Inputs, bindingName: string, resources: seq<BindingResource>, i: int, j: int,
                            w: Sync.Wanted)
    requires Asked(inputs, resources, i, j)
  {
    var r, cluster := resources[i], resources[i].clusters[j];
    && w.key.0 == "stellaris-harmonycloud-cn-" + cluster
    && w.key.1 == bindingName + "." + KindText(Read(inputs, r).gvk)
    && exists places, patches ::
      && ArePatches(inputs.overrides, r.name, cluster, places, patches)
      && Patched(inputs.patcher, Read(inputs, r).raw, patches, w.raw)
  }

  function KindText(gvk: Gvk): string {
    (if gvk.group == "" then "" else gvk.group + ".") + gvk.version + "." + LowerCase(gvk.kind)
  }

  lemma KindTextIsLabel(gvk: Gvk)
    ensures KindText(gvk) == GvkLabel(gvk)
  {
  }

  /** The same, as the code computes it. */
  predicate Computed(inputs: Inputs, bindingName: string, resources: seq<BindingResource>, i: int, j: int,
                     w: Sync.Wanted)
    requires Asked(inputs, resources, i, j)
  {
    [w] == WantedPair(inputs, bindingName, resources[i], resources[i].clusters[j])
  }

  /** All places that ask for something, from the i-th resource on, in order; with what the code computes. */
  ghost predicate AreWants(inputs: Inputs, bindingName: string, resources: seq<BindingResource>, i: nat,
                           places: seq<(nat, nat)>, wanted: seq<Sync.Wanted>) {
    && |places| == |wanted|
    && (forall n :: 0 <= n < |places| ==>
          && i <= places[n].0 && Asked(inputs, resources, places[n].0, places[n].1)
          && Computed(inputs, bindingName, resources, places[n].0, places[n].1, wanted[n]))
    && (forall k: nat, l: nat :: i <= k && Asked(inputs, resources, k, l) ==> (k, l) in places)
    && (forall m, n :: 0 <= m < n < |places| ==> Before(places[m], places[n]))
  }

  lemma {:induction false} ClustersAre(inputs: Inputs, bindingName: string, r: BindingResource, clusters: seq<string>)
    ensures var wanted := WantedClusters(inputs, bindingName, r, clusters);
      if Readable(inputs, r) then
        && |wanted| == |clusters|
        && forall l :: 0 <= l < |clusters| ==> [wanted[l]] == WantedPair(inputs, bindingName, r, clusters[l])
      else
        wanted == []
    decreases |clusters|
  {
    if clusters != [] {
      ClustersAre(inputs, bindingName, r, clusters[1..]);
      assert Readable(inputs, r) ==> |WantedPair(inputs, bindingName, r, clusters[0])| == 1;
    }
  }

  /** The places of one resource. */
  function Row(inputs: Inputs, resources: seq<BindingResource>, i: nat): (r: seq<(nat, nat)>)
    requires i < |resources|
    ensures |r| == if Readable(inputs, resources[i]) then |resources[i].clusters| else 0
    ensures forall l :: 0 <= l < |r| ==> r[l] == (i, l)
  {
    if Readable(inputs, resources[i]) then
      seq(|resources[i].clusters|, l requires 0 <= l < |resources[i].clusters| => (i, l))
    else
      []
  }

  lemma RowComplete(inputs: Inputs, resources: seq<BindingResource>, i: nat, l: nat)
    requires i < |resources| && Asked(inputs, resources, i, l)
    ensures (i, l) in Row(inputs, resources, i)
  {
    assert Row(inputs, resources, i)[l] == (i, l);
  }

  lemma RowFirst(inputs: Inputs, bindingName: string, resources: seq<BindingResource>, i: nat,
                 places: seq<(nat, nat)>, wanted: seq<Sync.Wanted>)
    requires i < |resources| && AreWants(inputs, bindingName, resources, i + 1, places, wanted)
    ensures AreWants(inputs, bindingName, resources, i, Row(inputs, resources, i) + places,
      WantedClusters(inputs, bindingName, resources[i], resources[i].clusters) + wanted)
  {
    hide Computed, WantedClusters, Asked, Before;
    RowComputed(inputs, bindingName, resources, i);
    var row := Row(inputs, resources, i);
    var first := WantedClusters(inputs, bindingName, resources[i], resources[i].clusters);
    var all := row + places;
    forall n | 0 <= n < |all|
      ensures i <= all[n].0 && Asked(inputs, resources, all[n].0, all[n].1)
        && Computed(inputs, bindingName, resources, all[n].0, all[n].1, (first + wanted)[n])
    {
    }
    forall k: nat, l: nat | i <= k && Asked(inputs, resources, k, l) ensures (k, l) in all {
      if k == i {
        RowComplete(inputs, resources, i, l);
      } else {
        assert (k, l) in places;
      }
    }
    RowBefore(inputs, resources, i, places);
  }

  lemma RowComputed(inputs: Inputs, bindingName: string, resources: seq<BindingResource>, i: nat)
    requires i < |resources|
    ensures var row := Row(inputs, resources, i);
      var first := WantedClusters(inputs, bindingName, resources[i], resources[i].clusters);
      && |first| == |row|
      && forall n :: 0 <= n < |row| ==>
           && Asked(inputs, resources, row[n].0, row[n].1)
           && Computed(inputs, bindingName, resources, row[n].0, row[n].1, first[n])
  {
    ClustersAre(inputs, bindingName, resources[i], resources[i].clusters);
  }

  lemma RowBefore(inputs: Inputs, resources: seq<BindingResource>, i: nat, places: seq<(nat, nat)>)
    requires i < |resources| && forall n :: 0 <= n < |places| ==> i < places[n].0
    requires forall m, n :: 0 <= m < n < |places| ==> Before(places[m], places[n])
    ensures var all := Row(inputs, resources, i) + places;
      forall m, n :: 0 <= m < n < |all| ==> Before(all[m], all[n])
  {
  }

  lemma {:induction false} WantsFrom(inputs: Inputs, bindingName: string, resources: seq<BindingResource>, i: nat)
    returns (places: seq<(nat, nat)>)
    requires i <= |resources|
    ensures AreWants(inputs, bindingName, resources, i, places, WantedOf(inputs, bindingName, resources[i..]))
    decreases |resources| - i
  {
    places := [];
    if i < |resources| {
      places := WantsFrom(inputs, bindingName, resources, i + 1);
      RowFirst(inputs, bindingName, resources, i, places, WantedOf(inputs, bindingName, resources[i + 1..]));
      places := Row(inputs, resources, i) + places;
      assert resources[i..][0] == resources[i] && resources[i..][1..] == resources[i + 1..];
    }
  }

  // ---------- what the wanted objects are ----------

  predicate PlainKinds(inputs: Inputs) {
    forall k :: k in inputs.resources ==> PlainKind(inputs.resources[k].gvk)
  }

  /** Two places ask for the same kind in the same cluster. */
  predicate Alike(inputs: Inputs, resources: seq<BindingResource>, i: int, j: int, k: int, l: int) {
    && Asked(inputs, resources, i, j) && Asked(inputs, resources, k, l)
    && resources[i].clusters[j] == resources[k].clusters[l]
    && SameKind(Read(inputs, resources[i]).gvk, Read(inputs, resources[k]).gvk)
  }

  lemma ComputedAnswers(inputs: Inputs, bindingName: string, resources: seq<BindingResource>, i: nat, j: nat,
                        w: Sync.Wanted)
    requires Asked(inputs, resources, i, j) && Computed(inputs, bindingName, resources, i, j, w)
    ensures AnswersTo(inputs, bindingName, resources, i, j, w)
    ensures w.key
      == (ClusterNamespace(resources[i].clusters[j]), ClusterResourceName(bindingName, Read(inputs, resources[i]).gvk))
  {
    var r, cluster := resources[i], resources[i].clusters[j];
    KindTextIsLabel(Read(inputs, r).gvk);
    var places := PatchesForArePatches(inputs.overrides, r.name, cluster);
    ApplyAllIsPatched(inputs.patcher, Read(inputs, r).raw, PatchesFor(inputs.overrides, r.name, cluster));
  }

  lemma SameNamespace(a: string, b: string)
    ensures ClusterNamespace(a) == ClusterNamespace(b) <==> a == b
  {
    assert ClusterNamespace(a)[|NAMESPACE_PREFIX|..] == a && ClusterNamespace(b)[|NAMESPACE_PREFIX|..] == b;
  }

  /** Every place that asks for something, in order. */
  ghost predicate AllAsked(inputs: Inputs, resources: seq<BindingResource>, places: seq<(nat, nat)>) {
    && (forall n :: 0 <= n < |places| ==> Asked(inputs, resources, places[n].0, places[n].1))
    && (forall i: nat, j: nat :: Asked(inputs, resources, i, j) ==> (i, j) in places)
    && (forall m, n :: 0 <= m < n < |places| ==> Before(places[m], places[n]))
  }

  /** One object for each of them, in the right namespace and with the right content; two have the same key exactly
      if they ask for the same kind in the same cluster. */
  ghost predicate WantedRight(inputs: Inputs, bindingName: string, resources: seq<BindingResource>,
                              places: seq<(nat, nat)>, wanted: seq<Sync.Wanted>) {
    && AllAsked(inputs, resources, places) && |wanted| == |places|
    && (forall n :: 0 <= n < |places| ==>
          Asked(inputs, resources, places[n].0, places[n].1)
          && AnswersTo(inputs, bindingName, resources, places[n].0, places[n].1, wanted[n]))
    && (forall m, n :: 0 <= m < |places| && 0 <= n < |places| ==>
          (wanted[m].key == wanted[n].key <==>
            Alike(inputs, resources, places[m].0, places[m].1, places[n].0, places[n].1)))
  }

  lemma WantedIsRight(inputs: Inputs, bindingName: string, resources: seq<BindingResource>)
    returns (places: seq<(nat, nat)>)
    requires PlainKinds(inputs)
    ensures WantedRight(inputs, bindingName, resources, places, WantedOf(inputs, bindingName, resources))
  {
    places := WantsFrom(inputs, bindingName, resources, 0);
    assert resources[0..] == resources;
    var wanted := WantedOf(inputs, bindingName, resources);
    forall n | 0 <= n < |places| {
      ComputedAnswers(inputs, bindingName, resources, places[n].0, places[n].1, wanted[n]);
    }
    forall m, n | 0 <= m < |places| && 0 <= n < |places|
      ensures wanted[m].key == wanted[n].key <==>
        Alike(inputs, resources, places[m].0, places[m].1, places[n].0, places[n].1)
    {
      KeysTell(inputs, bindingName, resources, places[m], places[n], wanted[m], wanted[n]);
    }
  }

  lemma KeysTell(inputs: Inputs, bindingName: string, resources: seq<BindingResource>, p: (nat, nat), q: (nat, nat),
                 v: Sync.Wanted, w: Sync.Wanted)
    requires PlainKinds(inputs) && Asked(inputs, resources, p.0, p.1) && Asked(inputs, resources, q.0, q.1)
    requires Computed(inputs, bindingName, resources, p.0, p.1, v)
    requires Computed(inputs, bindingName, resources, q.0, q.1, w)
    ensures v.key == w.key <==> Alike(inputs, resources, p.0, p.1, q.0, q.1)
  {
    ComputedAnswers(inputs, bindingName, resources, p.0, p.1, v);
    ComputedAnswers(inputs, bindingName, resources, q.0, q.1, w);
    SameNamespace(resources[p.0].clusters[p.1], resources[q.0].clusters[q.1]);
    NamesTellKinds(bindingName, Read(inputs, resources[p.0]).gvk, Read(inputs, resources[q.0]).gvk);
  }

  // ---------- a sync over an empty store ----------

  ghost predicate NoneAlike(inputs: Inputs, resources: seq<BindingResource>) {
    forall i, j, k, l | Alike(inputs, resources, i, j, k, l) :: i == k && j == l
  }

  lemma {:induction false} DistinctKeysCount(wanted: seq<Sync.Wanted>)
    requires forall m, n :: 0 <= m < n < |wanted| ==> wanted[m].key != wanted[n].key
    ensures |set n | 0 <= n < |wanted| :: wanted[n].key| == |wanted|
    decreases |wanted|
  {
    if wanted != [] {
      var init, last := wanted[..|wanted| - 1], wanted[|wanted| - 1];
      DistinctKeysCount(init);
      var keys := set n | 0 <= n < |init| :: init[n].key;
      assert forall n :: 0 <= n < |init| ==> init[n] == wanted[n];
      assert (set n | 0 <= n < |wanted| :: wanted[n].key) == keys + {last.key};
    }
  }

  /** It succeeds exactly if no two pairs of a resource and a cluster ask for the same kind in the same cluster, and
      then leaves one object for each, with the binding's label and no status yet. */
  lemma EmptyStore(inputs: Inputs, bindingName: string, resources: seq<BindingResource>, loopVar: LoopVar)
    requires PlainKinds(inputs)
    ensures var wanted := WantedOf(inputs, bindingName, resources);
      var t := Sync.SyncAll(map[], wanted, bindingName, None, loopVar);
      && (t.outcome == Sync.Fine <==> NoneAlike(inputs, resources))
      && (t.outcome == Sync.Fine ==> |t.objects| == |wanted| && forall n :: 0 <= n < |wanted| ==>
            wanted[n].key in t.objects && t.objects[wanted[n].key]
              == ClusterResource(wanted[n].key.0, wanted[n].key.1, bindingName, wanted[n].raw, Status("", "", 0)))
  {
    var wanted := WantedOf(inputs, bindingName, resources);
    AllWantedInControlPlane(inputs, bindingName, resources);
    SharedSync.NothingListed(map[], wanted, bindingName);
    Sync.SyncConverges(map[], wanted, bindingName, None);
    SyncableWhenNoneAlike(inputs, bindingName, resources);
    if Sync.Syncable(map[], wanted, bindingName) {
      Sync.TargetInFull(map[], wanted, bindingName);
      DistinctKeysCount(wanted);
      OnlyWanted(wanted, bindingName);
    }
  }

  lemma OnlyWanted(wanted: seq<Sync.Wanted>, bindingName: string)
    requires Sync.WantedInControlPlane(wanted) && Sync.Syncable(map[], wanted, bindingName)
    ensures Sync.Target(map[], wanted, bindingName).Keys == set n | 0 <= n < |wanted| :: wanted[n].key
    ensures |Sync.Target(map[], wanted, bindingName)| == |Sync.Target(map[], wanted, bindingName).Keys|
  {
    Sync.TargetInFull(map[], wanted, bindingName);
  }

  /** Over an empty store nothing but a key wanted twice is in the way. */
  lemma SyncableWhenNoneAlike(inputs: Inputs, bindingName: string, resources: seq<BindingResource>)
    requires PlainKinds(inputs)
    ensures Sync.Syncable(map[], WantedOf(inputs, bindingName, resources), bindingName) <==>
      NoneAlike(inputs, resources)
  {
    hide AnswersTo, WantedOf;
    var places := WantedIsRight(inputs, bindingName, resources);
    var wanted := WantedOf(inputs, bindingName, resources);
    if NoneAlike(inputs, resources) {
      forall m, n | 0 <= m < n < |wanted| ensures wanted[m].key != wanted[n].key {
        assert Before(places[m], places[n]);
      }
    } else {
      var i, j, k, l :| Alike(inputs, resources, i, j, k, l) && !(i == k && j == l);
      var m :| 0 <= m < |places| && places[m] == (i, j);
      var n :| 0 <= n < |places| && places[n] == (k, l);
      assert wanted[m].key == wanted[n].key && m != n;
    }
  }
}
