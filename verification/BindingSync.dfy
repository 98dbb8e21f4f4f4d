/** One sync of a binding: list its cluster resources, and bring them in line with what it wants. */
module BindingSync {
  import opened Names
  import opened Wrappers
  import opened ClusterResources
  import opened BindingModel
  import opened SyncController
  import opened Wants
  import Sync
  import SharedSync

  /** getClusterResourceListForBinding: the resources with the binding's label, in some order. */
  method ListForBinding(store: Store, bindingName: string) returns (list: seq<ClusterResource>)
    requires Sync.WellKeyed(store.objects)
    ensures Lists(store.objects, bindingName, list)
  {
    list := [];
    var keys := store.objects.Keys;
    while keys != {}
      invariant keys <= store.objects.Keys
      invariant forall i :: 0 <= i < |list| ==> Listed(store.objects, bindingName, list[i])
      invariant forall k :: k in store.objects && k !in keys && store.objects[k].binding == bindingName ==>
        store.objects[k] in list
      decreases keys
    {
      var k :| k in keys;
      if store.objects[k].binding == bindingName {
        list := list + [store.objects[k]];
      }
      keys := keys - {k};
    }
  }

  predicate HaveContent(wanted: seq<Sync.Wanted>) {
    forall i :: 0 <= i < |wanted| ==> wanted[i].raw.Some?
  }

  /** What a sync comes to, from one store to the next. With a variable per iteration, or nothing listed, it
      succeeds and leaves the target if nothing wanted is blocked. With one variable it does so in the harmless
      case; and on a store at its target it writes nothing exactly if all is like the last one listed. */
  ghost predicate Synced(wanted: seq<Sync.Wanted>, bindingName: string, loopVar: LoopVar, last: Option<ClusterResource>,
                         was: Objects, now: Objects, outcome: Sync.Outcome, written: int) {
    var target := Sync.Target(was, wanted, bindingName);
    if loopVar.PerIteration? || last.None? then
      && (outcome == Sync.Fine <==> Sync.Syncable(was, wanted, bindingName))
      && (outcome == Sync.Fine ==> now == target)
      && (outcome == Sync.Fine && was == now ==> written == 0)
    else
      Sync.Syncable(was, wanted, bindingName) ==>
        && (outcome == Sync.Fine && now == target <==>
          SharedSync.Ready(was, wanted, bindingName, last.value)
          && SharedSync.Harmless(was, wanted, bindingName, last.value))
        && (was == target && HaveContent(wanted) ==>
          && (outcome == Sync.Fine && written == 0 <==> SharedSync.AllLike(wanted, last.value))
          && (SharedSync.AllLike(wanted, last.value) ==> now == was))
  }

  lemma SyncOfBinding(wanted: seq<Sync.Wanted>, bindingName: string, loopVar: LoopVar, was: Objects,
                      last: Option<ClusterResource>)
    requires Sync.WellKeyed(was) && Sync.LastListed(was, bindingName, last) && Sync.WantedInControlPlane(wanted)
    ensures var t := Sync.SyncAll(was, wanted, bindingName, last, loopVar);
      Synced(wanted, bindingName, loopVar, last, was, t.objects, t.outcome, t.writes)
  {
    if loopVar.PerIteration? || last.None? {
      SyncOwnCopies(wanted, bindingName, was, last);
      if last.None? {
        SharedSync.NothingListed(was, wanted, bindingName);
      }
    } else if Sync.Syncable(was, wanted, bindingName) {
      SharedSync.SharedExact(was, wanted, bindingName, last.value);
      if was == Sync.Target(was, wanted, bindingName) && HaveContent(wanted) {
        SharedSync.SharedAgain(was, wanted, bindingName, last.value);
      }
    }
  }

  lemma SyncOwnCopies(wanted: seq<Sync.Wanted>, bindingName: string, was: Objects, last: Option<ClusterResource>)
    requires Sync.WellKeyed(was) && Sync.LastListed(was, bindingName, last) && Sync.WantedInControlPlane(wanted)
    ensures var t := Sync.SyncAll(was, wanted, bindingName, last, PerIteration);
      Synced(wanted, bindingName, PerIteration, last, was, t.objects, t.outcome, t.writes)
  {
    Sync.SyncConverges(was, wanted, bindingName, last);
    if Sync.Syncable(was, wanted, bindingName) && was == Sync.Target(was, wanted, bindingName) {
      Sync.TargetIs(was, wanted, bindingName);
      Sync.SyncIsIdempotent(was, wanted, bindingName, last);
    }
  }

  predicate DotFreeClusters(b: Binding) {
    forall i :: 0 <= i < |b.resources| ==> forall c :: c in b.resources[i].clusters ==> DotFree(c)
  }

  lemma {:induction false} WantedDotFree(inputs: Inputs, bindingName: string, resources: seq<BindingResource>)
    requires forall i :: 0 <= i < |resources| ==> forall c :: c in resources[i].clusters ==> DotFree(c)
    ensures forall i :: 0 <= i < |WantedOf(inputs, bindingName, resources)| ==>
      DotFree(WantedOf(inputs, bindingName, resources)[i].key.0)
  {
    if resources != [] {
      WantedDotFree(inputs, bindingName, resources[1..]);
      ClustersDotFree(inputs, bindingName, resources[0], resources[0].clusters);
    }
  }

  lemma {:induction false} ClustersDotFree(inputs: Inputs, bindingName: string, r: BindingResource,
                                           clusters: seq<string>)
    requires forall c :: c in clusters ==> DotFree(c)
    ensures forall i :: 0 <= i < |WantedClusters(inputs, bindingName, r, clusters)| ==>
      DotFree(WantedClusters(inputs, bindingName, r, clusters)[i].key.0)
  {
    if clusters != [] {
      ClustersDotFree(inputs, bindingName, r, clusters[1..]);
      PrefixDotFree(clusters[0]);
    }
  }

  /** A store as the API server keeps it. */
  predicate InOrder(objects: Objects) {
    Sync.WellKeyed(objects) && DotFreeNamespaces(objects)
  }

  lemma {:induction false} StepsInOrder(s: Sync.Run, wanted: seq<Sync.Wanted>, bindingName: string, loopVar: LoopVar)
    requires InOrder(s.objects) && (s.left != map[] ==> s.last.Some?)
    requires forall i :: 0 <= i < |wanted| ==> DotFree(wanted[i].key.0)
    ensures InOrder(Sync.Steps(s, wanted, bindingName, loopVar).objects)
    decreases |wanted|
  {
    if wanted != [] && s.outcome == Sync.Fine {
      Sync.StepKeepsLast(s, wanted[0], bindingName, loopVar);
      assert DotFree(wanted[0].key.0);
      StepsInOrder(Sync.Step(s, wanted[0], bindingName, loopVar), wanted[1..], bindingName, loopVar);
    }
  }

  lemma SyncInOrder(inputs: Inputs, b: Binding, loopVar: LoopVar, was: Objects, last: Option<ClusterResource>)
    requires InOrder(was) && Sync.LastListed(was, b.name, last) && DotFreeClusters(b)
    ensures InOrder(Sync.SyncAll(was, WantedOf(inputs, b.name, b.resources), b.name, last, loopVar).objects)
  {
    WantedDotFree(inputs, b.name, b.resources);
    StepsInOrder(Sync.Start(was, b.name, last), WantedOf(inputs, b.name, b.resources), b.name, loopVar);
  }

  /** A sync that finds nothing stored succeeds exactly if no two pairs of a resource and a cluster ask for the same
      kind in the same cluster, and then leaves one object for each wanted one. */
  ghost predicate FirstSynced(inputs: Inputs, b: Binding, outcome: Sync.Outcome, now: Objects) {
    var wanted := WantedOf(inputs, b.name, b.resources);
    && (outcome == Sync.Fine <==> NoneAlike(inputs, b.resources))
    && (outcome == Sync.Fine ==> |now| == |wanted| && forall n :: 0 <= n < |wanted| ==>
          wanted[n].key in now && now[wanted[n].key]
            == ClusterResource(wanted[n].key.0, wanted[n].key.1, b.name, wanted[n].raw, Status("", "", 0)))
  }

  lemma FirstSyncOf(inputs: Inputs, b: Binding, loopVar: LoopVar, last: Option<ClusterResource>)
    requires Sync.LastListed(map[], b.name, last) && PlainKinds(inputs)
    ensures var t := Sync.SyncAll(map[], WantedOf(inputs, b.name, b.resources), b.name, last, loopVar);
      FirstSynced(inputs, b, t.outcome, t.objects)
  {
    EmptyStore(inputs, b.name, b.resources, loopVar);
  }

  /** SyncClusterResourceWithBinding; `last` is the resource listed last. */
  method SyncClusterResourceWithBinding(store: Store, inputs: Inputs, b: Binding, loopVar: LoopVar)
    returns (outcome: Sync.Outcome, ghost last: Option<ClusterResource>)
    requires InOrder(store.objects) && DotFreeClusters(b)
    modifies store
    ensures InOrder(store.objects)
    ensures Sync.LastListed(old(store.objects), b.name, last) && store.writes >= old(store.writes)
    ensures if b.resources == [] then outcome == Sync.Fine && store.objects == old(store.objects)
            else Synced(WantedOf(inputs, b.name, b.resources), b.name, loopVar, last, old(store.objects),
                        store.objects, outcome, store.writes - old(store.writes))
    ensures old(store.objects) == map[] && b.resources != [] && PlainKinds(inputs) ==>
      FirstSynced(inputs, b, outcome, store.objects)
  {
    hide FirstSynced, PlainKinds, Synced, Sync.SyncAll, Sync.Steps, Sync.Start, DotFree;
    var list := ListForBinding(store, b.name);
    ghost var was, wanted := store.objects, WantedOf(inputs, b.name, b.resources);
    outcome := SyncClusterResource(store, inputs, b, list, loopVar);
    last := LastOf(list);
    if b.resources != [] {
      AllWantedInControlPlane(inputs, b.name, b.resources);
      SyncOfBinding(wanted, b.name, loopVar, was, last);
      SyncInOrder(inputs, b, loopVar, was, last);
      if was == map[] && PlainKinds(inputs) {
        FirstSyncOf(inputs, b, loopVar, last);
      }
    }
  }

  /** Reconciling the same binding twice. If the first sync leaves the store at its target, as `Synced` tells, and
      patching leaves every wanted resource with content, the second one changes and writes nothing with a
      variable per iteration; with one variable, exactly if all is like the resource that is listed last then. */
  method SyncTwice(store: Store, inputs: Inputs, b: Binding, loopVar: LoopVar)
    returns (first: Sync.Outcome, second: Sync.Outcome, between: nat, ghost mid: Objects,
             ghost last: Option<ClusterResource>, ghost lastAgain: Option<ClusterResource>)
    requires InOrder(store.objects) && DotFreeClusters(b) && b.resources != []
    modifies store
    ensures Synced(WantedOf(inputs, b.name, b.resources), b.name, loopVar, last, old(store.objects), mid, first,
                   between - old(store.writes))
    ensures var was, wanted := old(store.objects), WantedOf(inputs, b.name, b.resources);
      first == Sync.Fine && Sync.Syncable(was, wanted, b.name) && mid == Sync.Target(was, wanted, b.name)
      && HaveContent(wanted) ==>
        (second == Sync.Fine && store.objects == mid && store.writes == between <==>
          loopVar.PerIteration? || lastAgain.None? || SharedSync.AllLike(wanted, lastAgain.value))
  {
    ghost var was, wanted := store.objects, WantedOf(inputs, b.name, b.resources);
    AllWantedInControlPlane(inputs, b.name, b.resources);
    first, last := SyncClusterResourceWithBinding(store, inputs, b, loopVar);
    between, mid := store.writes, store.objects;
    second, lastAgain := first, last;
    if first == Sync.Fine {
      if Sync.Syncable(was, wanted, b.name) && HaveContent(wanted) {
        Sync.TargetIsStable(was, wanted, b.name);
      }
      second, lastAgain := SyncClusterResourceWithBinding(store, inputs, b, loopVar);
    }
  }
}
