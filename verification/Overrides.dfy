/** Overrides: patching a resource for a cluster, and which bindings a changed override concerns. */
module Overrides {
  import opened Wrappers
  import opened BindingModel

  datatype OverrideClusters = OverrideClusters(names: seq<string>, patch: string)

  datatype Override = Override(namespace: string, resources: seq<string>, clusters: seq<OverrideClusters>)

  /** A JSON patch applied to a document; it may fail. */
  type Patcher = (string, string) -> Option<string>

  /** ApplyJsonPatch: nothing comes of a missing document or a failing patch. */
  function ApplyPatch(patcher: Patcher, raw: Option<string>, patch: string): Option<string> {
    if raw.None? then None else patcher(raw.value, patch)
  }

  /** The patches of one override's cluster entries that name the cluster. */
  function MatchingPatches(clusters: seq<OverrideClusters>, clusterName: string): seq<string> {
    if clusters == [] then []
    else MatchingPatches(clusters[..|clusters| - 1], clusterName)
         + if clusterName in clusters[|clusters| - 1].names then [clusters[|clusters| - 1].patch] else []
  }

  /** All patches that apply to the resource in the cluster, override by override. */
  function PatchesFor(overrides: seq<Override>, resourceName: string, clusterName: string): seq<string> {
    if overrides == [] then []
    else PatchesFor(overrides[..|overrides| - 1], resourceName, clusterName)
         + if resourceName in overrides[|overrides| - 1].resources
           then MatchingPatches(overrides[|overrides| - 1].clusters, clusterName) else []
  }

  function ApplyAll(patcher: Patcher, raw: Option<string>, patches: seq<string>): Option<string> {
    if patches == [] then raw
    else ApplyPatch(patcher, ApplyAll(patcher, raw, patches[..|patches| - 1]), patches[|patches| - 1])
  }

  // ---------- what applying overrides means ----------

  /** The j-th cluster entry of the i-th override is meant for the resource in the cluster. */
  predicate MeantAt(overrides: seq<Override>, resourceName: string, clusterName: string, i: int, j: int) {
    && 0 <= i < |overrides| && 0 <= j < |overrides[i].clusters|
    && resourceName in overrides[i].resources && clusterName in overrides[i].clusters[j].names
  }

  predicate Before(a: (nat, nat), b: (nat, nat)) {
    a.0 < b.0 || (a.0 == b.0 && a.1 < b.1)
  }

  /** The places of all entries meant for the resource in the cluster, in order. */
  ghost predicate ArePlaces(overrides: seq<Override>, resourceName: string, clusterName: string,
                            places: seq<(nat, nat)>) {
    && (forall n :: 0 <= n < |places| ==> MeantAt(overrides, resourceName, clusterName, places[n].0, places[n].1))
    && (forall i: nat, j: nat :: MeantAt(overrides, resourceName, clusterName, i, j) ==> (i, j) in places)
    && (forall m, n :: 0 <= m < n < |places| ==> Before(places[m], places[n]))
  }

  /** The patches at these places. */
  ghost predicate ArePatches(overrides: seq<Override>, resourceName: string, clusterName: string,
                             places: seq<(nat, nat)>, patches: seq<string>) {
    && ArePlaces(overrides, resourceName, clusterName, places) && |patches| == |places|
    && forall n :: 0 <= n < |places| ==>
         MeantAt(overrides, resourceName, clusterName, places[n].0, places[n].1)
         && patches[n] == overrides[places[n].0].clusters[places[n].1].patch
  }

  /** The documents from which and to which patch after patch leads. */
  predicate Documents(patcher: Patcher, patches: seq<string>, docs: seq<string>) {
    |docs| == |patches| + 1 && forall n :: 0 <= n < |patches| ==> patcher(docs[n], patches[n]) == Some(docs[n + 1])
  }

  ghost predicate LeadsTo(patcher: Patcher, doc: string, patches: seq<string>, end: string) {
    exists docs :: Documents(patcher, patches, docs) && docs[0] == doc && docs[|patches|] == end
  }

  /** Some patch fails on the document that the ones before lead to. */
  ghost predicate BreaksOff(patcher: Patcher, doc: string, patches: seq<string>) {
    exists n: nat, end: string :: n < |patches| && LeadsTo(patcher, doc, patches[..n], end)
      && patcher(end, patches[n]).None?
  }

  /** All patches one after the other: the document they lead to, nothing if there is no content or one fails. */
  ghost predicate Patched(patcher: Patcher, raw: Option<string>, patches: seq<string>, result: Option<string>) {
    && (forall end :: result == Some(end) <==> raw.Some? && LeadsTo(patcher, raw.value, patches, end))
    && (result == None <==> raw.None? || BreaksOff(patcher, raw.value, patches))
  }

  lemma LeadsNowhere(patcher: Patcher, doc: string, end: string)
    ensures LeadsTo(patcher, doc, [], end) <==> doc == end
  {
    assert Documents(patcher, [], [doc]);
  }

  lemma LeadsFurther(patcher: Patcher, doc: string, patches: seq<string>, patch: string, end: string)
    ensures LeadsTo(patcher, doc, patches + [patch], end)
      <==> exists mid :: LeadsTo(patcher, doc, patches, mid) && patcher(mid, patch) == Some(end)
  {
    var all := patches + [patch];
    if docs :| Documents(patcher, all, docs) && docs[0] == doc && docs[|all|] == end {
      assert Documents(patcher, patches, docs[..|all|]);
      assert all[|patches|] == patch;
      assert LeadsTo(patcher, doc, patches, docs[|patches|]);
    }
    if mid :| LeadsTo(patcher, doc, patches, mid) && patcher(mid, patch) == Some(end) {
      var docs :| Documents(patcher, patches, docs) && docs[0] == doc && docs[|patches|] == mid;
      assert Documents(patcher, all, docs + [end]);
    }
  }

  lemma BreaksFurther(patcher: Patcher, doc: string, patches: seq<string>, patch: string)
    ensures BreaksOff(patcher, doc, patches + [patch])
      <==> BreaksOff(patcher, doc, patches)
           || exists mid :: LeadsTo(patcher, doc, patches, mid) && patcher(mid, patch).None?
  {
    var all := patches + [patch];
    assert forall n :: 0 <= n <= |patches| ==> all[..n] == patches[..n];
    assert all[|patches|] == patch && patches[..|patches|] == patches;
    if n: nat, end: string :| n < |all| && LeadsTo(patcher, doc, all[..n], end) && patcher(end, all[n]).None? {
      assert n < |patches| ==> LeadsTo(patcher, doc, patches[..n], end) && all[n] == patches[n];
    }
    if n: nat, end: string :|
      n < |patches| && LeadsTo(patcher, doc, patches[..n], end) && patcher(end, patches[n]).None? {
      assert LeadsTo(patcher, doc, all[..n], end) && all[n] == patches[n];
    }
    if mid :| LeadsTo(patcher, doc, patches, mid) && patcher(mid, patch).None? {
      assert LeadsTo(patcher, doc, all[..|patches|], mid);
    }
  }

  /** Applying the patches one by one comes to just that. */
  lemma {:induction false} ApplyAllIsPatched(patcher: Patcher, raw: Option<string>, patches: seq<string>)
    ensures Patched(patcher, raw, patches, ApplyAll(patcher, raw, patches))
  {
    if raw.None? {
      NothingFromNothing(patcher, patches);
    } else if patches == [] {
      forall end ensures LeadsTo(patcher, raw.value, [], end) <==> raw.value == end {
        LeadsNowhere(patcher, raw.value, end);
      }
    } else {
      var init, last := patches[..|patches| - 1], patches[|patches| - 1];
      assert patches == init + [last];
      ApplyAllIsPatched(patcher, raw, init);
      PatchedFurther(patcher, raw, init, last, ApplyAll(patcher, raw, init));
    }
  }

  lemma {:induction false} NothingFromNothing(patcher: Patcher, patches: seq<string>)
    ensures ApplyAll(patcher, None, patches) == None
  {
    if patches != [] {
      NothingFromNothing(patcher, patches[..|patches| - 1]);
    }
  }

  lemma PatchedFurther(patcher: Patcher, raw: Option<string>, patches: seq<string>, patch: string,
                       sofar: Option<string>)
    requires raw.Some? && Patched(patcher, raw, patches, sofar)
    ensures Patched(patcher, raw, patches + [patch], ApplyPatch(patcher, sofar, patch))
  {
    forall end ensures ApplyPatch(patcher, sofar, patch) == Some(end)
      <==> LeadsTo(patcher, raw.value, patches + [patch], end)
    {
      LeadsFurther(patcher, raw.value, patches, patch, end);
    }
    BreaksFurther(patcher, raw.value, patches, patch);
  }

  // ---------- the patches of the loops ----------

  /** The entries of one override that name the cluster, in order. */
  ghost predicate AreEntries(clusters: seq<OverrideClusters>, clusterName: string, entries: seq<nat>,
                             patches: seq<string>) {
    && |patches| == |entries|
    && (forall n :: 0 <= n < |entries| ==>
          entries[n] < |clusters| && clusterName in clusters[entries[n]].names
          && patches[n] == clusters[entries[n]].patch)
    && (forall j :: 0 <= j < |clusters| && clusterName in clusters[j].names ==> j in entries)
    && (forall m, n :: 0 <= m < n < |entries| ==> entries[m] < entries[n])
  }

  lemma {:induction false} MatchingEntries(clusters: seq<OverrideClusters>, clusterName: string)
    returns (entries: seq<nat>)
    ensures AreEntries(clusters, clusterName, entries, MatchingPatches(clusters, clusterName))
    decreases |clusters|
  {
    hide AreEntries, MatchingPatches;
    if clusters == [] {
      entries := [];
      NoEntries(clusterName);
    } else {
      var init, last := clusters[..|clusters| - 1], clusters[|clusters| - 1];
      assert clusters == init + [last];
      entries := MatchingEntries(init, clusterName);
      EntriesSnoc(init, last, clusterName, entries, MatchingPatches(init, clusterName));
      MatchingLast(init, last, clusterName);
      if clusterName in last.names {
        entries := entries + [|init|];
      }
    }
  }

  lemma NoEntries(clusterName: string)
    ensures AreEntries([], clusterName, [], MatchingPatches([], clusterName))
  {
  }

  lemma MatchingLast(init: seq<OverrideClusters>, last: OverrideClusters, clusterName: string)
    ensures MatchingPatches(init + [last], clusterName)
      == MatchingPatches(init, clusterName) + if clusterName in last.names then [last.patch] else []
  {
    assert (init + [last])[..|init|] == init;
  }

  lemma EntriesSnoc(init: seq<OverrideClusters>, last: OverrideClusters, clusterName: string, entries: seq<nat>,
                    patches: seq<string>)
    requires AreEntries(init, clusterName, entries, patches)
    ensures clusterName in last.names ==>
      AreEntries(init + [last], clusterName, entries + [|init|], patches + [last.patch])
    ensures clusterName !in last.names ==> AreEntries(init + [last], clusterName, entries, patches + [])
  {
    var all := init + [last];
    assert all[|init|] == last && (forall j :: 0 <= j < |init| ==> all[j] == init[j]) && patches + [] == patches;
    if clusterName in last.names {
      var more := entries + [|init|];
      assert more[|entries|] == |init|;
      forall j | 0 <= j < |all| && clusterName in all[j].names ensures j in more {
        assert j < |init| ==> j in entries;
      }
    }
  }

  function At(i: nat, entries: seq<nat>): (r: seq<(nat, nat)>)
    ensures |r| == |entries| && forall n :: 0 <= n < |r| ==> r[n] == (i, entries[n])
  {
    seq(|entries|, n requires 0 <= n < |entries| => (i, entries[n]))
  }

  /** One more override adds its own entries behind the others. */
  ghost predicate LastEntries(last: Override, resourceName: string, clusterName: string, entries: seq<nat>,
                              patches: seq<string>) {
    if resourceName in last.resources then AreEntries(last.clusters, clusterName, entries, patches)
    else entries == [] && patches == []
  }

  lemma MeantSnoc(init: seq<Override>, last: Override, resourceName: string, clusterName: string, i: nat, j: nat)
    ensures i < |init| ==>
      (MeantAt(init + [last], resourceName, clusterName, i, j) <==> MeantAt(init, resourceName, clusterName, i, j))
    ensures MeantAt(init + [last], resourceName, clusterName, |init|, j) <==>
      resourceName in last.resources && j < |last.clusters| && clusterName in last.clusters[j].names
  {
  }

  lemma PlacesComplete(init: seq<Override>, last: Override, resourceName: string, clusterName: string,
                       places: seq<(nat, nat)>, entries: seq<nat>, patches: seq<string>)
    requires ArePlaces(init, resourceName, clusterName, places)
    requires LastEntries(last, resourceName, clusterName, entries, patches)
    ensures forall i: nat, j: nat :: MeantAt(init + [last], resourceName, clusterName, i, j) ==>
      (i, j) in places + At(|init|, entries)
  {
    forall i: nat, j: nat | MeantAt(init + [last], resourceName, clusterName, i, j)
      ensures (i, j) in places + At(|init|, entries)
    {
      MeantSnoc(init, last, resourceName, clusterName, i, j);
      if i == |init| {
        var n :| 0 <= n < |entries| && entries[n] == j;
        assert At(|init|, entries)[n] == (i, j);
      }
    }
  }

  lemma PlacesOrdered(init: seq<Override>, last: Override, resourceName: string, clusterName: string,
                      places: seq<(nat, nat)>, entries: seq<nat>, patches: seq<string>)
    requires ArePlaces(init, resourceName, clusterName, places)
    requires LastEntries(last, resourceName, clusterName, entries, patches)
    ensures var all := places + At(|init|, entries);
      forall m, n :: 0 <= m < n < |all| ==> Before(all[m], all[n])
  {
    forall n | 0 <= n < |places| ensures places[n].0 < |init| {
      assert MeantAt(init, resourceName, clusterName, places[n].0, places[n].1);
    }
  }

  lemma PlacesMeant(init: seq<Override>, last: Override, resourceName: string, clusterName: string,
                    places: seq<(nat, nat)>, patches: seq<string>, entries: seq<nat>, more: seq<string>, n: nat)
    requires ArePatches(init, resourceName, clusterName, places, patches)
    requires LastEntries(last, resourceName, clusterName, entries, more) && n < |places| + |entries|
    ensures |patches| == |places| && |more| == |entries|
    ensures var all, place := init + [last], (places + At(|init|, entries))[n];
      && MeantAt(all, resourceName, clusterName, place.0, place.1)
      && (patches + more)[n] == all[place.0].clusters[place.1].patch
  {
    if n < |places| {
      assert MeantAt(init, resourceName, clusterName, places[n].0, places[n].1);
      MeantSnoc(init, last, resourceName, clusterName, places[n].0, places[n].1);
    } else {
      MeantSnoc(init, last, resourceName, clusterName, |init|, entries[n - |places|]);
    }
  }

  lemma PlacesSnoc(init: seq<Override>, last: Override, resourceName: string, clusterName: string,
                   places: seq<(nat, nat)>, patches: seq<string>, entries: seq<nat>, more: seq<string>)
    requires ArePatches(init, resourceName, clusterName, places, patches)
    requires LastEntries(last, resourceName, clusterName, entries, more)
    ensures ArePatches(init + [last], resourceName, clusterName, places + At(|init|, entries), patches + more)
  {
    PlacesComplete(init, last, resourceName, clusterName, places, entries, more);
    PlacesOrdered(init, last, resourceName, clusterName, places, entries, more);
    var all, now := init + [last], places + At(|init|, entries);
    assert |now| == |patches + more|;
    forall n | 0 <= n < |now|
      ensures MeantAt(all, resourceName, clusterName, now[n].0, now[n].1)
        && (patches + more)[n] == all[now[n].0].clusters[now[n].1].patch
    {
      PlacesMeant(init, last, resourceName, clusterName, places, patches, entries, more, n);
    }
  }

  /** What the loops collect are the patches meant for the resource in the cluster, in order. */
  lemma {:induction false} PatchesForArePatches(overrides: seq<Override>, resourceName: string, clusterName: string)
    returns (places: seq<(nat, nat)>)
    ensures ArePatches(overrides, resourceName, clusterName, places,
      PatchesFor(overrides, resourceName, clusterName))
    decreases |overrides|
  {
    places := [];
    if overrides != [] {
      var init, last := overrides[..|overrides| - 1], overrides[|overrides| - 1];
      places := PatchesForArePatches(init, resourceName, clusterName);
      var entries: seq<nat>, more: seq<string> := [], [];
      if resourceName in last.resources {
        more := MatchingPatches(last.clusters, clusterName);
        entries := MatchingEntries(last.clusters, clusterName);
      }
      PlacesSnoc(init, last, resourceName, clusterName, places, PatchesFor(init, resourceName, clusterName), entries,
        more);
      places := places + At(|init|, entries);
      assert overrides == init + [last];
    }
  }

  lemma {:induction false} ApplyAppend(patcher: Patcher, raw: Option<string>, a: seq<string>, b: seq<string>)
    ensures ApplyAll(patcher, raw, a + b) == ApplyAll(patcher, ApplyAll(patcher, raw, a), b)
  {
    if b == [] {
      assert a + b == a;
    } else {
      assert (a + b)[..|a + b| - 1] == a + b[..|b| - 1];
      ApplyAppend(patcher, raw, a, b[..|b| - 1]);
    }
  }

  lemma PatchesSnoc(overrides: seq<Override>, i: nat, resourceName: string, clusterName: string)
    requires i < |overrides|
    ensures PatchesFor(overrides[..i + 1], resourceName, clusterName)
      == PatchesFor(overrides[..i], resourceName, clusterName)
      + if resourceName in overrides[i].resources then MatchingPatches(overrides[i].clusters, clusterName) else []
    ensures resourceName !in overrides[i].resources ==>
      PatchesFor(overrides[..i + 1], resourceName, clusterName) == PatchesFor(overrides[..i], resourceName, clusterName)
  {
    assert overrides[..i + 1][..i] == overrides[..i];
  }

  lemma MatchingSnoc(clusters: seq<OverrideClusters>, i: nat, clusterName: string)
    requires i < |clusters|
    ensures MatchingPatches(clusters[..i + 1], clusterName) == MatchingPatches(clusters[..i], clusterName)
      + if clusterName in clusters[i].names then [clusters[i].patch] else []
    ensures clusterName !in clusters[i].names ==>
      MatchingPatches(clusters[..i + 1], clusterName) == MatchingPatches(clusters[..i], clusterName)
  {
    assert clusters[..i + 1][..i] == clusters[..i];
  }

  /** ApplyResourceOverride over the overrides of the binding's namespace. */
  method ApplyResourceOverride(patcher: Patcher, raw: Option<string>, overrides: seq<Override>, resourceName: string,
                               clusterName: string)
    returns (resource: Option<string>)
    ensures resource == ApplyAll(patcher, raw, PatchesFor(overrides, resourceName, clusterName))
    ensures exists places, patches ::
      ArePatches(overrides, resourceName, clusterName, places, patches) && Patched(patcher, raw, patches, resource)
  {
    resource := raw;
    for i := 0 to |overrides|
      invariant resource == ApplyAll(patcher, raw, PatchesFor(overrides[..i], resourceName, clusterName))
    {
      PatchesSnoc(overrides, i, resourceName, clusterName);
      if resourceName in overrides[i].resources {
        ghost var before := PatchesFor(overrides[..i], resourceName, clusterName);
        ApplyAppend(patcher, raw, before, MatchingPatches(overrides[i].clusters, clusterName));
        resource := ApplyClusters(patcher, resource, overrides[i].clusters, clusterName);
      }
    }
    assert overrides[..|overrides|] == overrides;
    ghost var places := PatchesForArePatches(overrides, resourceName, clusterName);
    ApplyAllIsPatched(patcher, raw, PatchesFor(overrides, resourceName, clusterName));
  }

  method ApplyClusters(patcher: Patcher, raw: Option<string>, clusters: seq<OverrideClusters>, clusterName: string)
    returns (resource: Option<string>)
    ensures resource == ApplyAll(patcher, raw, MatchingPatches(clusters, clusterName))
  {
    resource := raw;
    for i := 0 to |clusters|
      invariant resource == ApplyAll(patcher, raw, MatchingPatches(clusters[..i], clusterName))
    {
      MatchingSnoc(clusters, i, clusterName);
      if clusterName in clusters[i].names {
        ApplyAppend(patcher, raw, MatchingPatches(clusters[..i], clusterName), [clusters[i].patch]);
        assert [clusters[i].patch][..0] == [];
        resource := ApplyPatch(patcher, resource, clusters[i].patch);
      }
    }
    assert clusters[..|clusters|] == clusters;
  }

  // ---------- which bindings an override concerns ----------

  predicate NamesCluster(o: Override, clusterName: string) {
    exists i :: 0 <= i < |o.clusters| && clusterName in o.clusters[i].names
  }

  /** One of the binding's resources is named by the override. */
  predicate NamesResource(o: Override, b: Binding) {
    exists i :: 0 <= i < |b.resources| && b.resources[i].name in o.resources
  }

  /** One of the override's patches applies to one of the binding's resources in one of its clusters. */
  predicate Concerns(o: Override, b: Binding) {
    exists i, j :: 0 <= i < |b.resources| && 0 <= j < |b.resources[i].clusters|
      && b.resources[i].name in o.resources && NamesCluster(o, b.resources[i].clusters[j])
  }

  lemma {:induction false} PatchesFromClusters(clusters: seq<OverrideClusters>, clusterName: string)
    ensures MatchingPatches(clusters, clusterName) != []
      <==> exists i :: 0 <= i < |clusters| && clusterName in clusters[i].names
  {
    if clusters != [] {
      PatchesFromClusters(clusters[..|clusters| - 1], clusterName);
    }
  }

  /** A binding is concerned exactly when syncing it would apply a patch of this override. */
  lemma ConcernsMeansPatches(o: Override, b: Binding)
    ensures Concerns(o, b) <==> exists i, j | 0 <= i < |b.resources| && 0 <= j < |b.resources[i].clusters| ::
      PatchesFor([o], b.resources[i].name, b.resources[i].clusters[j]) != []
  {
    forall i, j | 0 <= i < |b.resources| && 0 <= j < |b.resources[i].clusters|
      ensures (b.resources[i].name in o.resources && NamesCluster(o, b.resources[i].clusters[j]))
        <==> PatchesFor([o], b.resources[i].name, b.resources[i].clusters[j]) != []
    {
      PatchesFromClusters(o.clusters, b.resources[i].clusters[j]);
      assert [o][..0] == [];
      assert PatchesFor([], b.resources[i].name, b.resources[i].clusters[j]) == [];
    }
  }

  /** What the code enqueues: every binding with a named resource, from the first concerned one on. */
  predicate Enqueued(o: Override, bindings: seq<Binding>, i: nat) {
    i < |bindings| && NamesResource(o, bindings[i]) && exists k :: 0 <= k <= i && Concerns(o, bindings[k])
  }

  function Queue(o: Override, bindings: seq<Binding>, n: nat): seq<(string, string)>
    requires n <= |bindings|
  {
    if n == 0 then []
    else Queue(o, bindings, n - 1) + if Enqueued(o, bindings, n - 1) then [KeyOf(bindings[n - 1])] else []
  }

  /** NewOverridePolicyFunc. The flag is set once and never reset. */
  method NewOverridePolicyFunc(o: Override, bindings: seq<Binding>) returns (requestQueue: seq<(string, string)>)
    ensures requestQueue == Queue(o, bindings, |bindings|)
  {
    requestQueue := [];
    var flag := false;
    for i := 0 to |bindings|
      invariant flag <==> exists k :: 0 <= k < i && Concerns(o, bindings[k])
      invariant requestQueue == Queue(o, bindings, i)
    {
      var enqueue;
      flag, enqueue := ScanBinding(o, bindings[i], flag);
      if enqueue {
        requestQueue := requestQueue + [KeyOf(bindings[i])];
      }
    }
  }

  /** The loop over one binding's resources, with the flag as it came. */
  method ScanBinding(o: Override, b: Binding, flag: bool) returns (newFlag: bool, enqueue: bool)
    ensures newFlag <==> flag || Concerns(o, b)
    ensures enqueue <==> NamesResource(o, b) && newFlag
  {
    newFlag, enqueue := flag, false;
    for r := 0 to |b.resources|
      invariant !enqueue
      invariant newFlag ==> flag
      invariant flag ==> newFlag
      invariant flag ==> forall i :: 0 <= i < r ==> b.resources[i].name !in o.resources
      invariant forall i, j | 0 <= i < r && 0 <= j < |b.resources[i].clusters| && b.resources[i].name in o.resources ::
        !NamesCluster(o, b.resources[i].clusters[j])
    {
      if b.resources[r].name !in o.resources {
        continue;
      }
      for c := 0 to |b.resources[r].clusters|
        invariant newFlag == flag
        invariant c > 0 ==> !flag
        invariant forall j :: 0 <= j < c ==> !NamesCluster(o, b.resources[r].clusters[j])
      {
        for k := 0 to |o.clusters|
          invariant newFlag == flag
          invariant forall l :: 0 <= l < k ==> b.resources[r].clusters[c] !in o.clusters[l].names
        {
          if b.resources[r].clusters[c] in o.clusters[k].names {
            newFlag := true;
            break;
          }
        }
        if newFlag {
          break;
        }
      }
      if newFlag {
        enqueue := true;
        return;
      }
    }
  }

  lemma ConcernedNamesResource(o: Override, b: Binding)
    requires Concerns(o, b)
    ensures NamesResource(o, b)
  {
  }

  predicate DistinctBindings(bindings: seq<Binding>) {
    forall i, j :: 0 <= i < j < |bindings| ==> KeyOf(bindings[i]) != KeyOf(bindings[j])
  }

  predicate AmongFirst(bindings: seq<Binding>, n: nat, key: (string, string)) {
    n <= |bindings| && exists i :: 0 <= i < n && KeyOf(bindings[i]) == key
  }

  lemma {:induction false} QueueFromFirst(o: Override, bindings: seq<Binding>, n: nat)
    requires n <= |bindings|
    ensures forall key :: key in Queue(o, bindings, n) ==> AmongFirst(bindings, n, key)
  {
    if n > 0 {
      QueueFromFirst(o, bindings, n - 1);
      forall key | key in Queue(o, bindings, n) ensures AmongFirst(bindings, n, key) {
        if key in Queue(o, bindings, n - 1) {
          var i :| 0 <= i < n - 1 && KeyOf(bindings[i]) == key;
        } else {
          assert KeyOf(bindings[n - 1]) == key;
        }
      }
    }
  }

  lemma {:induction false} QueueIs(o: Override, bindings: seq<Binding>, n: nat)
    requires n <= |bindings| && DistinctBindings(bindings)
    ensures forall i :: 0 <= i < n ==> (KeyOf(bindings[i]) in Queue(o, bindings, n) <==> Enqueued(o, bindings, i))
    ensures forall p, q :: 0 <= p < q < |Queue(o, bindings, n)| ==> Queue(o, bindings, n)[p] != Queue(o, bindings, n)[q]
  {
    if n > 0 {
      QueueIs(o, bindings, n - 1);
      QueueFromFirst(o, bindings, n - 1);
      var before, last := Queue(o, bindings, n - 1), KeyOf(bindings[n - 1]);
      assert !AmongFirst(bindings, n - 1, last);
      assert last !in before;
      forall i | 0 <= i < n ensures KeyOf(bindings[i]) in Queue(o, bindings, n) <==> Enqueued(o, bindings, i) {
        if i < n - 1 {
          assert KeyOf(bindings[i]) != last;
        }
      }
    }
  }

  /** The queue misses no concerned binding and holds each binding at most once. */
  lemma QueueIsComplete(o: Override, bindings: seq<Binding>)
    requires DistinctBindings(bindings)
    ensures var queue := Queue(o, bindings, |bindings|);
      && (forall i :: 0 <= i < |bindings| && Concerns(o, bindings[i]) ==>
            (bindings[i].namespace, bindings[i].name) in queue)
      && (forall p, q :: 0 <= p < q < |queue| ==> queue[p] != queue[q])
  {
    QueueIs(o, bindings, |bindings|);
    ConcernedAreEnqueued(o, bindings);
  }

  /** The queue in full: a binding is in it exactly if it names a resource of the override and it, or a binding
      before it, is concerned. */
  lemma QueueInFull(o: Override, bindings: seq<Binding>, i: nat)
    requires DistinctBindings(bindings) && i < |bindings|
    ensures (bindings[i].namespace, bindings[i].name) in Queue(o, bindings, |bindings|) <==>
      && (exists r :: r in bindings[i].resources && r.name in o.resources)
      && exists k :: 0 <= k <= i && Concerns(o, bindings[k])
  {
    QueueIs(o, bindings, |bindings|);
    var resources := bindings[i].resources;
    assert forall j :: 0 <= j < |resources| ==> resources[j] in resources;
    if r :| r in resources && r.name in o.resources {
      var j :| 0 <= j < |resources| && resources[j] == r;
    }
  }

  lemma ConcernedAreEnqueued(o: Override, bindings: seq<Binding>)
    ensures forall i :: 0 <= i < |bindings| && Concerns(o, bindings[i]) ==> Enqueued(o, bindings, i)
  {
    forall i | 0 <= i < |bindings| && Concerns(o, bindings[i]) ensures Enqueued(o, bindings, i) {
      ConcernedNamesResource(o, bindings[i]);
    }
  }

  /** The queue holds the concerned bindings and no others. */
  predicate ExactQueue(o: Override, bindings: seq<Binding>) {
    forall i :: 0 <= i < |bindings| ==>
      (KeyOf(bindings[i]) in Queue(o, bindings, |bindings|) <==> Concerns(o, bindings[i]))
  }

  /** Behind the first concerned binding, none shares a resource with the override without a cluster of it. */
  predicate NoneHalfNamed(o: Override, bindings: seq<Binding>) {
    forall k, i :: 0 <= k < i < |bindings| && Concerns(o, bindings[k]) && NamesResource(o, bindings[i]) ==>
      Concerns(o, bindings[i])
  }

  /** Exactly when the code enqueues no binding in vain. */
  lemma QueueIsExact(o: Override, bindings: seq<Binding>)
    requires DistinctBindings(bindings)
    ensures ExactQueue(o, bindings) <==> NoneHalfNamed(o, bindings)
  {
    QueueIs(o, bindings, |bindings|);
    ConcernedAreEnqueued(o, bindings);
    if ExactQueue(o, bindings) {
      forall k, i | 0 <= k < i < |bindings| && Concerns(o, bindings[k]) && NamesResource(o, bindings[i])
        ensures Concerns(o, bindings[i])
      {
        assert Enqueued(o, bindings, i);
      }
    }
    if NoneHalfNamed(o, bindings) {
      forall i | 0 <= i < |bindings| && Enqueued(o, bindings, i) ensures Concerns(o, bindings[i]) {
        var k :| 0 <= k <= i && Concerns(o, bindings[k]);
      }
    }
  }
}
