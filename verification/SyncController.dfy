/** The loops of syncClusterResource over a mutable store. */
module SyncController {
  import opened Names
  import opened Wrappers
  import opened ClusterResources
  import opened BindingModel
  import opened Overrides
  import Sync

  type Key = Sync.Key
  type Objects = Sync.Objects

  const MANAGER_NAMESPACE := "stellaris-system"

  /** The resource to deploy, and its kind. */
  datatype MultiClusterResource = MultiClusterResource(raw: Option<string>, gvk: Gvk)

  /** Everything a sync reads besides the cluster resources. */
  datatype Inputs = Inputs(resources: map<Key, MultiClusterResource>, overrides: seq<Override>, patcher: Patcher)

  function ResourceKey(r: BindingResource): Key {
    (if r.namespace == "" then MANAGER_NAMESPACE else r.namespace, r.name)
  }

  /** What one pair of a resource and a cluster asks for; nothing when the resource cannot be read. */
  function WantedPair(inputs: Inputs, bindingName: string, r: BindingResource, cluster: string): seq<Sync.Wanted> {
    if ResourceKey(r) !in inputs.resources then []
    else
      var mcr := inputs.resources[ResourceKey(r)];
      [Sync.Wanted((ClusterNamespace(cluster), ClusterResourceName(bindingName, mcr.gvk)),
                   ApplyAll(inputs.patcher, mcr.raw, PatchesFor(inputs.overrides, r.name, cluster)))]
  }

  function WantedClusters(inputs: Inputs, bindingName: string, r: BindingResource,
                          clusters: seq<string>): seq<Sync.Wanted> {
    if clusters == [] then []
    else WantedPair(inputs, bindingName, r, clusters[0]) + WantedClusters(inputs, bindingName, r, clusters[1..])
  }

  function WantedOf(inputs: Inputs, bindingName: string, resources: seq<BindingResource>): seq<Sync.Wanted> {
    if resources == [] then []
    else
      WantedClusters(inputs, bindingName, resources[0], resources[0].clusters)
      + WantedOf(inputs, bindingName, resources[1..])
  }

  lemma {:induction false} WantedClustersInControlPlane(inputs: Inputs, bindingName: string, r: BindingResource,
                                                        clusters: seq<string>)
    ensures Sync.WantedInControlPlane(WantedClusters(inputs, bindingName, r, clusters))
  {
    if clusters != [] {
      WantedClustersInControlPlane(inputs, bindingName, r, clusters[1..]);
    }
  }

  lemma {:induction false} AllWantedInControlPlane(inputs: Inputs, bindingName: string, resources: seq<BindingResource>)
    ensures Sync.WantedInControlPlane(WantedOf(inputs, bindingName, resources))
  {
    if resources != [] {
      WantedClustersInControlPlane(inputs, bindingName, resources[0], resources[0].clusters);
      AllWantedInControlPlane(inputs, bindingName, resources[1..]);
    }
  }

  /** The API server's cluster resources, with a count of the writes. */
  class Store {
    var objects: Objects
    var writes: nat

    constructor (objects: Objects)
      ensures this.objects == objects && writes == 0
    {
      this.objects, writes := objects, 0;
    }

    method Create(cr: ClusterResource) returns (ok: bool)
      modifies this
      ensures ok == (Sync.KeyOf(cr) !in old(objects))
      ensures objects == if ok then old(objects)[Sync.KeyOf(cr) := cr] else old(objects)
      ensures writes == old(writes) + if ok then 1 else 0
    {
      ok := Sync.KeyOf(cr) !in objects;
      if ok {
        objects, writes := objects[Sync.KeyOf(cr) := cr], writes + 1;
      }
    }

    method Update(cr: ClusterResource) returns (ok: bool)
      modifies this
      ensures ok == (Sync.KeyOf(cr) in old(objects))
      ensures objects == if ok then old(objects)[Sync.KeyOf(cr) := cr] else old(objects)
      ensures writes == old(writes) + if ok then 1 else 0
    {
      ok := Sync.KeyOf(cr) in objects;
      if ok {
        objects, writes := objects[Sync.KeyOf(cr) := cr], writes + 1;
      }
    }

    method Delete(cr: ClusterResource) returns (ok: bool)
      modifies this
      ensures ok == (Sync.KeyOf(cr) in old(objects))
      ensures objects == if ok then old(objects) - {Sync.KeyOf(cr)} else old(objects)
      ensures writes == old(writes) + if ok then 1 else 0
    {
      ok := Sync.KeyOf(cr) in objects;
      if ok {
        objects, writes := objects - {Sync.KeyOf(cr)}, writes + 1;
      }
    }
  }

  /** What `resource` in `for _, resource := range list` denotes: a variable whose address the map keeps. */
  class ResourceVar {
    var value: ClusterResource

    constructor (value: ClusterResource)
      ensures this.value == value
    {
      this.value := value;
    }
  }

  function StringKey(k: Key): string {
    MapKey(k.0, k.1)
  }

  function OwnedIn(list: seq<ClusterResource>): Objects {
    if list == [] then map[]
    else
      var before, last := OwnedIn(list[..|list| - 1]), list[|list| - 1];
      if Sync.InControlPlane(last.namespace) then before[Sync.KeyOf(last) := last] else before
  }

  function LastOf(list: seq<ClusterResource>): Option<ClusterResource> {
    if list == [] then None else Some(list[|list| - 1])
  }

  /** A list call for the binding's label: each of its resources once, in some order. */
  predicate Lists(objects: Objects, bindingName: string, list: seq<ClusterResource>) {
    && (forall i :: 0 <= i < |list| ==> Listed(objects, bindingName, list[i]))
    && (forall k :: k in objects && objects[k].binding == bindingName ==> objects[k] in list)
  }

  /** Namespaces as the API server admits them. */
  predicate DotFreeNamespaces(objects: Objects) {
    forall k :: k in objects ==> DotFree(k.0)
  }

  lemma {:induction false} OwnedInIs(list: seq<ClusterResource>)
    ensures forall k :: k in OwnedIn(list) ==>
      OwnedIn(list)[k] in list && Sync.KeyOf(OwnedIn(list)[k]) == k && Sync.InControlPlane(k.0)
    ensures forall i :: 0 <= i < |list| && Sync.InControlPlane(list[i].namespace) ==>
      Sync.KeyOf(list[i]) in OwnedIn(list)
  {
    if list != [] {
      OwnedInIs(list[..|list| - 1]);
      assert list == list[..|list| - 1] + [list[|list| - 1]];
    }
  }

  lemma ListingIsOwned(objects: Objects, bindingName: string, list: seq<ClusterResource>)
    requires Sync.WellKeyed(objects) && Lists(objects, bindingName, list)
    ensures OwnedIn(list) == Sync.Owned(objects, bindingName)
    ensures Sync.LastListed(objects, bindingName, LastOf(list))
  {
    OwnedInIs(list);
    var owned, inList := Sync.Owned(objects, bindingName), OwnedIn(list);
    forall k ensures k in owned <==> k in inList {
      if k in owned {
        assert objects[k] in list;
        var i :| 0 <= i < |list| && list[i] == objects[k];
        assert Sync.KeyOf(list[i]) == k;
      }
    }
  }

  function StringKeys(left: Objects): set<string> {
    set k | k in left :: StringKey(k)
  }

  predicate DotFreeKeys(left: Objects) {
    forall k :: k in left ==> DotFree(k.0)
  }

  lemma StringKeysAdd(left: Objects, k: Key, cr: ClusterResource)
    ensures StringKeys(left[k := cr]) == StringKeys(left) + {StringKey(k)}
  {
    forall s | s in StringKeys(left) + {StringKey(k)} ensures s in StringKeys(left[k := cr]) {
      if s in StringKeys(left) {
        var l :| l in left && StringKey(l) == s;
        assert l in left[k := cr];
      } else {
        assert k in left[k := cr];
      }
    }
  }

  lemma StringKeyIn(left: Objects, k: Key)
    requires DotFreeKeys(left) && DotFree(k.0)
    ensures StringKey(k) in StringKeys(left) <==> k in left
  {
    if StringKey(k) in StringKeys(left) {
      var l :| l in left && StringKey(l) == StringKey(k);
      MapKeyInjective(l.0, l.1, k.0, k.1);
    }
  }

  lemma StringKeysRemove(left: Objects, k: Key)
    requires DotFreeKeys(left) && k in left
    ensures StringKeys(left - {k}) == StringKeys(left) - {StringKey(k)}
  {
    forall s | s in StringKeys(left) - {StringKey(k)} ensures s in StringKeys(left - {k}) {
      var l :| l in left && StringKey(l) == s;
      assert l in left - {k};
    }
    StringKeyIn(left - {k}, k);
  }

  /** The addresses in the code's map lead where they should: to each resource's own copy, no two to
      the same variable; or all to the one variable. */
  ghost predicate Leads(m: map<string, ResourceVar>, left: Objects, last: Option<ClusterResource>, loopVar: LoopVar)
    reads m.Values
  {
    if loopVar.PerIteration? then
      && (forall k :: k in left && StringKey(k) in m ==> m[StringKey(k)].value == left[k])
      && (forall s, t :: s in m && t in m && s != t ==> m[s] != m[t])
    else
      && (forall s :: s in m ==> last == Some(m[s].value))
      && (forall s, t :: s in m && t in m ==> m[s] == m[t])
  }

  /** The code's map of addresses stands for the resources not met yet. */
  ghost predicate Stands(m: map<string, ResourceVar>, left: Objects, last: Option<ClusterResource>, loopVar: LoopVar)
    reads m.Values
  {
    DotFreeKeys(left) && m.Keys == StringKeys(left) && Leads(m, left, last, loopVar)
  }

  lemma LeadsAdd(m: map<string, ResourceVar>, left: Objects, cr: ClusterResource, v: ResourceVar, loopVar: LoopVar)
    requires DotFreeKeys(left) && m.Keys == StringKeys(left) && DotFree(cr.namespace)
    requires Leads(m, left, Some(cr), loopVar) && v.value == cr
    requires if loopVar.PerIteration? then v !in m.Values else forall s :: s in m ==> m[s] == v
    ensures Stands(m[StringKey(Sync.KeyOf(cr)) := v], left[Sync.KeyOf(cr) := cr], Some(cr), loopVar)
  {
    var k := Sync.KeyOf(cr);
    StringKeysAdd(left, k, cr);
    forall l | l in left ensures StringKey(l) == StringKey(k) <==> l == k {
      MapKeyInjective(l.0, l.1, k.0, k.1);
    }
  }

  /** Taking one key off the map; with own copies nothing else leads to its variable. */
  lemma StandsWithout(m: map<string, ResourceVar>, left: Objects, k: Key, last: Option<ClusterResource>,
                      loopVar: LoopVar)
    requires Stands(m, left, last, loopVar) && k in left
    ensures Stands(m - {StringKey(k)}, left - {k}, last, loopVar)
    ensures StringKey(k) in m
    ensures m[StringKey(k)].value == if loopVar.PerIteration? then left[k] else last.value
    ensures loopVar.PerIteration? ==> m[StringKey(k)] !in (m - {StringKey(k)}).Values
  {
    StringKeysRemove(left, k);
    assert StringKey(k) in StringKeys(left);
  }

  lemma NothingStands(last: Option<ClusterResource>, loopVar: LoopVar)
    ensures Stands(map[], map[], last, loopVar)
  {
  }

  /** changeClusterResourceListToMap: addresses of the loop variable, one or one per iteration. */
  method ChangeClusterResourceListToMap(list: seq<ClusterResource>, loopVar: LoopVar)
    returns (m: map<string, ResourceVar>)
    requires forall i :: 0 <= i < |list| ==> DotFree(list[i].namespace)
    ensures forall s :: s in m ==> fresh(m[s])
    ensures Stands(m, OwnedIn(list), LastOf(list), loopVar)
  {
    hide MapKey, DotFree, DotFreeKeys, StringKeys;
    m := map[];
    NothingStands(None, loopVar);
    if list == [] {
      return;
    }
    var resource := new ResourceVar(list[0]);
    NothingStands(Some(resource.value), loopVar);
    for i := 0 to |list|
      invariant fresh(resource) && (i > 0 ==> resource.value == list[i - 1])
      invariant forall s :: s in m ==> fresh(m[s])
      invariant loopVar.Shared? ==> forall s :: s in m ==> m[s] == resource
      invariant Stands(m, OwnedIn(list[..i]), Some(resource.value), loopVar)
    {
      assert list[..i + 1][..i] == list[..i];
      if loopVar.PerIteration? {
        resource := new ResourceVar(list[i]);
      } else {
        resource.value := list[i];
      }
      if Sync.InControlPlane(list[i].namespace) {
        LeadsAdd(m, OwnedIn(list[..i]), list[i], resource, loopVar);
        var key := MapKey(list[i].namespace, list[i].name);
        m := m[key := resource];
      }
    }
    assert list[..|list|] == list;
  }

  /** The store and its count of writes are where the run is. */
  ghost predicate At(store: Store, writes0: nat, cur: Sync.Run)
    reads store
  {
    store.objects == cur.objects && store.writes == writes0 + cur.writes
  }

  /** The loop body for one pair whose resource could be read. */
  method SyncPair(store: Store, m: map<string, ResourceVar>, w: Sync.Wanted, bindingName: string, loopVar: LoopVar,
                  ghost writes0: nat, ghost cur: Sync.Run)
    returns (rest: map<string, ResourceVar>, outcome: Sync.Outcome, ghost next: Sync.Run)
    requires cur.outcome == Sync.Fine && At(store, writes0, cur) && DotFree(w.key.0)
    requires Stands(m, cur.left, cur.last, loopVar) && (cur.left != map[] ==> cur.last.Some?)
    modifies store, m.Values
    ensures next == Sync.Step(cur, w, bindingName, loopVar)
    ensures At(store, writes0, next) && outcome == next.outcome
    ensures outcome == Sync.Fine ==> rest.Values <= m.Values && Stands(rest, next.left, next.last, loopVar)
    ensures next.left != map[] ==> next.last.Some?
  {
    hide MapKey, DotFree, DotFreeKeys, StringKeys;
    next := Sync.Step(cur, w, bindingName, loopVar);
    Sync.StepKeepsLast(cur, w, bindingName, loopVar);
    StringKeyIn(cur.left, w.key);
    rest := m;
    var key := MapKey(w.key.0, w.key.1);
    if key !in m {
      var created := store.Create(Sync.NewResource(w, bindingName));
      outcome := if created then Sync.Fine else Sync.AlreadyExists;
    } else {
      StandsWithout(m, cur.left, w.key, cur.last, loopVar);
      var clusterResource := m[key];
      rest := m - {key};
      if clusterResource.value.raw.None? || w.raw.None? {
        outcome := Sync.NilPanic;
      } else if clusterResource.value.raw == w.raw {
        outcome := Sync.Fine;
      } else {
        clusterResource.value := clusterResource.value.(raw := w.raw);
        var updated := store.Update(clusterResource.value);
        outcome := if updated then Sync.Fine else Sync.NotFound;
      }
    }
  }

  /** Everything still to be met is stored under its own key. */
  predicate LeftStored(cur: Sync.Run) {
    forall k :: k in cur.left ==> k in cur.objects && Sync.KeyOf(cur.left[k]) == k
  }

  /** The deletion loop, in whatever order the map is ranged over. */
  method DeleteLeft(store: Store, m: map<string, ResourceVar>, loopVar: LoopVar, ghost writes0: nat,
                    ghost cur: Sync.Run)
    returns (outcome: Sync.Outcome)
    requires cur.outcome == Sync.Fine && At(store, writes0, cur) && LeftStored(cur)
    requires Stands(m, cur.left, cur.last, loopVar) && (cur.left != map[] ==> cur.last.Some?)
    modifies store
    ensures At(store, writes0, Sync.Finish(cur, loopVar)) && outcome == Sync.Finish(cur, loopVar).outcome
  {
    StringKeysCount(cur.left);
    if loopVar.PerIteration? {
      outcome := Sync.Fine;
      DeleteOwn(store, m, cur.left);
      assert cur.left == map[] ==> store.objects == cur.objects;
    } else {
      outcome := DeleteShared(store, m, writes0, cur);
    }
  }

  lemma {:induction false} StringKeysCount(left: Objects)
    requires DotFreeKeys(left)
    ensures |StringKeys(left)| == |left|
    decreases left.Keys
  {
    if left != map[] {
      var k :| k in left;
      StringKeysRemove(left, k);
      StringKeysCount(left - {k});
      assert left.Keys == (left - {k}).Keys + {k};
      assert StringKey(k) in StringKeys(left);
    }
  }

  lemma KeysLeave(left: Objects, k: Key)
    requires DotFreeKeys(left) && k in left
    ensures DotFreeKeys(left - {k}) && left.Keys == (left - {k}).Keys + {k} && |left - {k}| == |left| - 1
  {
    assert left.Keys == (left - {k}).Keys + {k};
  }

  /** One deletion takes one key from what is left and from the store. */
  lemma DeleteOne(objects: Objects, all: Objects, left: Objects, k: Key)
    requires DotFreeKeys(left) && k in left && left.Keys <= all.Keys <= objects.Keys
    ensures var rest := left - {k};
      && StringKeys(rest) == StringKeys(left) - {StringKey(k)} && DotFreeKeys(rest)
      && |rest| == |left| - 1
      && objects - (all.Keys - left.Keys) - {k} == objects - (all.Keys - rest.Keys)
      && k in objects - (all.Keys - left.Keys)
  {
    hide *;
    StringKeysRemove(left, k);
    KeysLeave(left, k);
    assert all.Keys - (left - {k}).Keys == (all.Keys - left.Keys) + {k};
  }

  /** Each address leads to the object of its own key. */
  ghost predicate LeadsToKeys(m: map<string, ResourceVar>, left: Objects)
    reads m.Values
  {
    forall k :: k in left && StringKey(k) in m ==> Sync.KeyOf(m[StringKey(k)].value) == k
  }

  /** In the middle of the deletions: `todo` are the keys still in the map, `left` what they stand for. */
  ghost predicate Deleting(objects: Objects, all: Objects, left: Objects, todo: set<string>, now: Objects) {
    && left.Keys <= all.Keys <= objects.Keys
    && DotFreeKeys(left) && todo == StringKeys(left)
    && now == objects - (all.Keys - left.Keys)
  }

  lemma DeletingNext(objects: Objects, all: Objects, left: Objects, todo: set<string>, now: Objects, s: string)
    returns (k: Key)
    requires Deleting(objects, all, left, todo, now) && s in todo
    ensures k in left && StringKey(k) == s && k in now
    ensures Deleting(objects, all, left - {k}, todo - {s}, now - {k}) && |left - {k}| == |left| - 1
  {
    k :| k in left && StringKey(k) == s;
    DeleteOne(objects, all, left, k);
  }

  lemma DeletingDone(objects: Objects, all: Objects, left: Objects, now: Objects)
    requires Deleting(objects, all, left, {}, now)
    ensures now == objects - all.Keys && |left| == 0
  {
    StringKeysCount(left);
    assert left == map[];
    assert all.Keys - left.Keys == all.Keys;
  }

  /** The loop when the addresses differ: every deletion finds its object. */
  method DeleteOwn(store: Store, m: map<string, ResourceVar>, ghost all: Objects)
    requires DotFreeKeys(all) && m.Keys == StringKeys(all) && LeadsToKeys(m, all)
    requires all.Keys <= store.objects.Keys
    modifies store
    ensures store.objects == old(store.objects) - all.Keys && store.writes == old(store.writes) + |all|
  {
    var todo := m.Keys;
    ghost var left, objects := all, store.objects;
    assert objects == objects - (all.Keys - left.Keys);
    while todo != {}
      invariant todo <= m.Keys && Deleting(objects, all, left, todo, store.objects)
      invariant store.writes == old(store.writes) + |all| - |left|
      decreases |left|
    {
      var s :| s in todo;
      left := DeleteNext(store, m, s, objects, all, left, todo);
      todo := todo - {s};
    }
    DeletingDone(objects, all, left, store.objects);
  }

  method DeleteNext(store: Store, m: map<string, ResourceVar>, s: string,
                    ghost objects: Objects, ghost all: Objects, ghost left: Objects, ghost todo: set<string>)
    returns (ghost rest: Objects)
    requires s in m && s in todo && LeadsToKeys(m, all) && Deleting(objects, all, left, todo, store.objects)
    modifies store
    ensures Deleting(objects, all, rest, todo - {s}, store.objects)
    ensures |rest| == |left| - 1 && store.writes == old(store.writes) + 1
  {
    ghost var k := DeletingNext(objects, all, left, todo, store.objects, s);
    rest := left - {k};
    var deleted := store.Delete(m[s].value);
  }

  /** The loop when every address is the same: the second deletion fails. */
  method DeleteShared(store: Store, m: map<string, ResourceVar>, ghost writes0: nat, ghost cur: Sync.Run)
    returns (outcome: Sync.Outcome)
    requires cur.outcome == Sync.Fine && At(store, writes0, cur)
    requires Stands(m, cur.left, cur.last, Shared) && (cur.left != map[] ==> cur.last.Some?)
    requires |m| == |cur.left|
    modifies store
    ensures At(store, writes0, Sync.Finish(cur, Shared)) && outcome == Sync.Finish(cur, Shared).outcome
  {
    hide MapKey, DotFree, DotFreeKeys, StringKeys;
    var todo := m;
    outcome := Sync.Fine;
    while todo != map[]
      invariant todo.Keys <= m.Keys && forall s :: s in todo ==> todo[s] == m[s]
      invariant |todo| == |m| || |todo| == |m| - 1
      invariant |todo| == |m| ==> At(store, writes0, cur)
      invariant |todo| < |m| ==> cur.last.Some? && Sync.KeyOf(cur.last.value) in cur.objects
      invariant |todo| < |m| ==> store.objects == cur.objects - {Sync.KeyOf(cur.last.value)}
      invariant |todo| < |m| ==> store.writes == writes0 + cur.writes + 1
      decreases |todo|
    {
      var s :| s in todo;
      assert todo.Keys == (todo - {s}).Keys + {s};
      assert m != map[] && cur.left != map[];
      var deleted := store.Delete(todo[s].value);
      if !deleted {
        return Sync.NotFound;
      }
      todo := todo - {s};
    }
  }

  lemma StepLeftStored(cur: Sync.Run, w: Sync.Wanted, bindingName: string, loopVar: LoopVar)
    requires LeftStored(cur) && (cur.left != map[] ==> cur.last.Some?)
    ensures LeftStored(Sync.Step(cur, w, bindingName, loopVar))
  {
  }

  /** The pairs of one resource; `after` are the pairs still to come. */
  method SyncResource(store: Store, inputs: Inputs, bindingName: string, r: BindingResource,
                      m: map<string, ResourceVar>, loopVar: LoopVar,
                      ghost writes0: nat, ghost cur: Sync.Run, ghost after: seq<Sync.Wanted>)
    returns (rest: map<string, ResourceVar>, outcome: Sync.Outcome, ghost next: Sync.Run)
    requires cur.outcome == Sync.Fine && At(store, writes0, cur) && LeftStored(cur)
    requires forall c :: c in r.clusters ==> DotFree(c)
    requires Stands(m, cur.left, cur.last, loopVar) && (cur.left != map[] ==> cur.last.Some?)
    modifies store, m.Values
    ensures next.left != map[] ==> next.last.Some?
    ensures Sync.Steps(next, after, bindingName, loopVar)
      == Sync.Steps(cur, WantedClusters(inputs, bindingName, r, r.clusters) + after, bindingName, loopVar)
    ensures At(store, writes0, next) && outcome == next.outcome
    ensures outcome == Sync.Fine ==>
      rest.Values <= m.Values && LeftStored(next) && Stands(rest, next.left, next.last, loopVar)
  {
    rest, outcome, next := m, Sync.Fine, cur;
    ghost var end := Sync.Steps(cur, WantedClusters(inputs, bindingName, r, r.clusters) + after, bindingName, loopVar);
    assert r.clusters[0..] == r.clusters;
    for i := 0 to |r.clusters|
      invariant outcome == Sync.Fine == next.outcome && At(store, writes0, next) && LeftStored(next)
      invariant next.left != map[] ==> next.last.Some?
      invariant rest.Values <= m.Values && Stands(rest, next.left, next.last, loopVar)
      invariant Sync.Steps(next, WantedClusters(inputs, bindingName, r, r.clusters[i..]) + after, bindingName, loopVar)
        == end
    {
      WantedNext(inputs, bindingName, r, i, next, after, loopVar);
      if ResourceKey(r) !in inputs.resources {
        continue;
      }
      rest, outcome, next := SyncCluster(store, inputs, bindingName, r, r.clusters[i], rest, loopVar, writes0, next);
      if outcome != Sync.Fine {
        StoppedSteps(next, bindingName, loopVar);
        return;
      }
    }
    assert WantedClusters(inputs, bindingName, r, r.clusters[|r.clusters|..]) + after == after;
  }

  /** One readable resource and one of its clusters. */
  method SyncCluster(store: Store, inputs: Inputs, bindingName: string, r: BindingResource, cluster: string,
                     m: map<string, ResourceVar>,
                     loopVar: LoopVar, ghost writes0: nat, ghost cur: Sync.Run)
    returns (rest: map<string, ResourceVar>, outcome: Sync.Outcome, ghost next: Sync.Run)
    requires cur.outcome == Sync.Fine && At(store, writes0, cur) && LeftStored(cur)
    requires DotFree(cluster) && ResourceKey(r) in inputs.resources
    requires Stands(m, cur.left, cur.last, loopVar) && (cur.left != map[] ==> cur.last.Some?)
    modifies store, m.Values
    ensures next == Sync.Step(cur, WantedPair(inputs, bindingName, r, cluster)[0], bindingName, loopVar)
    ensures next.left != map[] ==> next.last.Some?
    ensures At(store, writes0, next) && outcome == next.outcome && LeftStored(next)
    ensures outcome == Sync.Fine ==> rest.Values <= m.Values && Stands(rest, next.left, next.last, loopVar)
  {
    var mcr := inputs.resources[ResourceKey(r)];
    var raw := ApplyResourceOverride(inputs.patcher, mcr.raw, inputs.overrides, r.name, cluster);
    var w := Sync.Wanted((ClusterNamespace(cluster), ClusterResourceName(bindingName, mcr.gvk)), raw);
    PrefixDotFree(cluster);
    StepLeftStored(cur, w, bindingName, loopVar);
    rest, outcome, next := SyncPair(store, m, w, bindingName, loopVar, writes0, cur);
  }

  lemma PrefixDotFree(cluster: string)
    requires DotFree(cluster)
    ensures DotFree(ClusterNamespace(cluster))
  {
  }

  lemma StoppedSteps(s: Sync.Run, bindingName: string, loopVar: LoopVar)
    requires s.outcome != Sync.Fine && (s.left != map[] ==> s.last.Some?)
    ensures forall ws :: Sync.Steps(s, ws, bindingName, loopVar) == s
  {
  }

  /** The next cluster of a resource contributes one pair, or none when the resource cannot be read. */
  lemma WantedNext(inputs: Inputs, bindingName: string, r: BindingResource, i: nat, s: Sync.Run,
                   after: seq<Sync.Wanted>, loopVar: LoopVar)
    requires i < |r.clusters| && s.outcome == Sync.Fine && (s.left != map[] ==> s.last.Some?)
    ensures var rest := WantedClusters(inputs, bindingName, r, r.clusters[i + 1..]) + after;
      Sync.Steps(s, WantedClusters(inputs, bindingName, r, r.clusters[i..]) + after, bindingName, loopVar) ==
      if ResourceKey(r) !in inputs.resources then Sync.Steps(s, rest, bindingName, loopVar)
      else
        var w := WantedPair(inputs, bindingName, r, r.clusters[i])[0];
        (Sync.StepKeepsLast(s, w, bindingName, loopVar);
         Sync.Steps(Sync.Step(s, w, bindingName, loopVar), rest, bindingName, loopVar))
  {
    hide *;
    var all := WantedClusters(inputs, bindingName, r, r.clusters[i..]) + after;
    var rest := WantedClusters(inputs, bindingName, r, r.clusters[i + 1..]) + after;
    var pair := WantedPair(inputs, bindingName, r, r.clusters[i]);
    WantedFront(inputs, bindingName, r, i, after);
    if ResourceKey(r) in inputs.resources {
      assert |pair| == 1;
      assert all[0] == pair[0] && all[1..] == rest;
      StepsFront(s, all, bindingName, loopVar);
    } else {
      assert all == rest;
    }
  }

  lemma WantedFront(inputs: Inputs, bindingName: string, r: BindingResource, i: nat, after: seq<Sync.Wanted>)
    requires i < |r.clusters|
    ensures WantedClusters(inputs, bindingName, r, r.clusters[i..]) + after
      == WantedPair(inputs, bindingName, r, r.clusters[i])
        + (WantedClusters(inputs, bindingName, r, r.clusters[i + 1..]) + after)
    ensures |WantedPair(inputs, bindingName, r, r.clusters[i])| == if ResourceKey(r) in inputs.resources then 1 else 0
  {
    var clusters := r.clusters[i..];
    assert clusters[0] == r.clusters[i] && clusters[1..] == r.clusters[i + 1..];
  }

  lemma StepsFront(s: Sync.Run, wanted: seq<Sync.Wanted>, bindingName: string, loopVar: LoopVar)
    requires wanted != [] && s.outcome == Sync.Fine && (s.left != map[] ==> s.last.Some?)
    ensures Sync.Steps(s, wanted, bindingName, loopVar)
      == (Sync.StepKeepsLast(s, wanted[0], bindingName, loopVar);
          Sync.Steps(Sync.Step(s, wanted[0], bindingName, loopVar), wanted[1..], bindingName, loopVar))
  {
  }

  /** syncClusterResource over a listing of the binding's cluster resources. */
  method SyncClusterResource(store: Store, inputs: Inputs, b: Binding, list: seq<ClusterResource>, loopVar: LoopVar)
    returns (outcome: Sync.Outcome)
    requires Sync.WellKeyed(store.objects) && DotFreeNamespaces(store.objects) && Lists(store.objects, b.name, list)
    requires forall i :: 0 <= i < |b.resources| ==> forall c :: c in b.resources[i].clusters ==> DotFree(c)
    modifies store
    ensures b.resources == [] ==>
      outcome == Sync.Fine && store.objects == old(store.objects) && store.writes == old(store.writes)
    ensures Sync.LastListed(old(store.objects), b.name, LastOf(list))
    ensures b.resources != [] ==>
      var t := Sync.SyncAll(old(store.objects), WantedOf(inputs, b.name, b.resources), b.name, LastOf(list), loopVar);
      outcome == t.outcome && At(store, old(store.writes), t)
  {
    ListingIsOwned(store.objects, b.name, list);
    if |b.resources| == 0 {
      return Sync.Fine;
    }
    ghost var writes0 := store.writes;
    ghost var cur := Sync.Start(store.objects, b.name, LastOf(list));
    ghost var wanted := WantedOf(inputs, b.name, b.resources);
    ghost var done := Sync.Steps(cur, wanted, b.name, loopVar);
    var m := ChangeClusterResourceListToMap(list, loopVar);
    for i := 0 to |b.resources|
      invariant cur.outcome == Sync.Fine && At(store, writes0, cur) && LeftStored(cur)
      invariant cur.left != map[] ==> cur.last.Some?
      invariant (forall v :: v in m.Values ==> fresh(v)) && Stands(m, cur.left, cur.last, loopVar)
      invariant Sync.Steps(cur, WantedOf(inputs, b.name, b.resources[i..]), b.name, loopVar) == done
    {
      assert b.resources[i..][0] == b.resources[i] && b.resources[i..][1..] == b.resources[i + 1..];
      m, outcome, cur := SyncResource(store, inputs, b.name, b.resources[i], m, loopVar, writes0, cur,
        WantedOf(inputs, b.name, b.resources[i + 1..]));
      if outcome != Sync.Fine {
        StoppedSteps(cur, b.name, loopVar);
        return;
      }
    }
    outcome := DeleteLeft(store, m, loopVar, writes0, cur);
  }

  predicate Listed(objects: Objects, bindingName: string, cr: ClusterResource) {
    Sync.KeyOf(cr) in objects && objects[Sync.KeyOf(cr)] == cr && cr.binding == bindingName
  }
}
