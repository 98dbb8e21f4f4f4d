/** Bringing the cluster resources of a binding in line with what the binding wants. */
module Sync {
  import opened Names
  import opened Wrappers
  import opened ClusterResources

  /** Namespace and name of an object. */
  type Key = (string, string)

  type Objects = map<Key, ClusterResource>

  /** One cluster resource a binding wants: `raw` is the patched resource, if patching left one. */
  datatype Wanted = Wanted(key: Key, raw: Option<string>)

  datatype Outcome = Fine | AlreadyExists | NotFound | NilPanic

  /** A run of syncClusterResource: the store, the listed resources not met yet, the last listed
      resource (the one loop variable), how often the store was written, and how it stands. */
  datatype Run = Run(objects: Objects, left: Objects, last: Option<ClusterResource>, writes: nat, outcome: Outcome)

  function KeyOf(cr: ClusterResource): Key {
    (cr.namespace, cr.name)
  }

  predicate WellKeyed(objects: Objects) {
    forall k :: k in objects ==> KeyOf(objects[k]) == k
  }

  function NewResource(w: Wanted, bindingName: string): ClusterResource {
    ClusterResource(w.key.0, w.key.1, bindingName, w.raw, Status("", "", 0))
  }

  predicate InControlPlane(namespace: string) {
    NAMESPACE_PREFIX <= namespace
  }

  /** The binding's resources in control-plane namespaces: what the map of the code holds. */
  function Owned(objects: Objects, bindingName: string): Objects {
    map k | k in objects && objects[k].binding == bindingName && InControlPlane(k.0) :: objects[k]
  }

  /** The copy an address in the map leads to. */
  function Found(s: Run, k: Key, loopVar: LoopVar): ClusterResource
    requires k in s.left && s.last.Some?
  {
    if loopVar.Shared? then s.last.value else s.left[k]
  }

  /** The loop body for one pair of a resource and a cluster. */
  function Step(s: Run, w: Wanted, bindingName: string, loopVar: LoopVar): Run
    requires s.left != map[] ==> s.last.Some?
  {
    if w.key !in s.left then
      if w.key in s.objects then s.(outcome := AlreadyExists)
      else s.(objects := s.objects[w.key := NewResource(w, bindingName)], writes := s.writes + 1)
    else
      var cr, met := Found(s, w.key, loopVar), s.(left := s.left - {w.key});
      if cr.raw.None? || w.raw.None? then met.(outcome := NilPanic)
      else if cr.raw == w.raw then met
      else if KeyOf(cr) !in s.objects then met.(outcome := NotFound)
      else
        var updated := cr.(raw := w.raw);
        met.(objects := s.objects[KeyOf(cr) := updated], writes := s.writes + 1,
             last := if loopVar.Shared? then Some(updated) else s.last)
  }

  lemma StepKeepsLast(s: Run, w: Wanted, bindingName: string, loopVar: LoopVar)
    requires s.left != map[] ==> s.last.Some?
    ensures var t := Step(s, w, bindingName, loopVar); t.left != map[] ==> t.last.Some?
    ensures s.last.Some? ==> Step(s, w, bindingName, loopVar).last.Some?
  {
    if w.key !in s.left {
    } else {
      assert s.left != map[];
    }
  }

  function Steps(s: Run, wanted: seq<Wanted>, bindingName: string, loopVar: LoopVar): (t: Run)
    requires s.left != map[] ==> s.last.Some?
    ensures t.left != map[] ==> t.last.Some?
    decreases |wanted|
  {
    if wanted == [] || s.outcome != Fine then s
    else
      StepKeepsLast(s, wanted[0], bindingName, loopVar);
      Steps(Step(s, wanted[0], bindingName, loopVar), wanted[1..], bindingName, loopVar)
  }

  /** Deleting what is left. With one loop variable every address leads to the same object, so a
      second deletion does not find it. */
  function Finish(s: Run, loopVar: LoopVar): Run
    requires s.left != map[] ==> s.last.Some?
  {
    if s.outcome != Fine || s.left == map[] then s
    else if loopVar.PerIteration? then s.(objects := s.objects - s.left.Keys, writes := s.writes + |s.left|)
    else if KeyOf(s.last.value) !in s.objects then s.(outcome := NotFound)
    else s.(objects := s.objects - {KeyOf(s.last.value)}, writes := s.writes + 1,
            outcome := if |s.left| == 1 then Fine else NotFound)
  }

  function Start(objects: Objects, bindingName: string, last: Option<ClusterResource>): Run {
    Run(objects, Owned(objects, bindingName), last, 0, Fine)
  }

  /** The last listed resource, if there is any, is one of the binding's resources as stored. */
  predicate LastListed(objects: Objects, bindingName: string, last: Option<ClusterResource>) {
    && (Owned(objects, bindingName) != map[] ==> last.Some?)
    && (last.Some? ==>
      KeyOf(last.value) in objects && objects[KeyOf(last.value)] == last.value && last.value.binding == bindingName)
  }

  function SyncAll(objects: Objects, wanted: seq<Wanted>, bindingName: string, last: Option<ClusterResource>,
                   loopVar: LoopVar): Run
    requires LastListed(objects, bindingName, last)
  {
    Finish(Steps(Start(objects, bindingName, last), wanted, bindingName, loopVar), loopVar)
  }

  // ---------- what a sync is to do ----------

  predicate IsWanted(wanted: seq<Wanted>, k: Key) {
    exists i :: 0 <= i < |wanted| && wanted[i].key == k
  }

  function Put(objects: Objects, w: Wanted, bindingName: string): Objects {
    objects[w.key := if w.key in objects then objects[w.key].(raw := w.raw) else NewResource(w, bindingName)]
  }

  function PutAll(objects: Objects, wanted: seq<Wanted>, bindingName: string): Objects {
    if wanted == [] then objects
      else Put(PutAll(objects, wanted[..|wanted| - 1], bindingName), wanted[|wanted| - 1], bindingName)
  }

  /** The store a sync should leave: wanted resources with their patched content, the binding's other
      control-plane resources gone, everything else as it was. */
  function Target(objects: Objects, wanted: seq<Wanted>, bindingName: string): Objects {
    map k | k in PutAll(objects, wanted, bindingName) && (IsWanted(wanted, k) || k !in Owned(objects, bindingName))
      :: PutAll(objects, wanted, bindingName)[k]
  }

  /** When the store is in the way of no wanted resource: keys differ, an existing object under a
      wanted key belongs to the binding, and contents to compare exist. */
  predicate Syncable(objects: Objects, wanted: seq<Wanted>, bindingName: string) {
    && (forall i, j :: 0 <= i < j < |wanted| ==> wanted[i].key != wanted[j].key)
    && (forall i :: 0 <= i < |wanted| && wanted[i].key in objects ==>
          wanted[i].key in Owned(objects, bindingName) && objects[wanted[i].key].raw.Some? && wanted[i].raw.Some?)
  }

  /** Wanted resources live in control-plane namespaces. */
  predicate WantedInControlPlane(wanted: seq<Wanted>) {
    forall i :: 0 <= i < |wanted| ==> InControlPlane(wanted[i].key.0)
  }

  // ---------- with a variable per iteration ----------

  lemma {:induction false} PutAllKeeps(objects: Objects, wanted: seq<Wanted>, bindingName: string)
    ensures var t := PutAll(objects, wanted, bindingName);
      && (forall k :: k in t <==> k in objects || IsWanted(wanted, k))
      && (forall k :: k in objects && !IsWanted(wanted, k) ==> t[k] == objects[k])
  {
    if wanted != [] {
      var init, last := wanted[..|wanted| - 1], wanted[|wanted| - 1];
      PutAllKeeps(objects, init, bindingName);
      forall k ensures IsWanted(wanted, k) <==> IsWanted(init, k) || k == last.key {
        WantedSnoc(init, last, k);
        assert wanted == init + [last];
      }
    }
  }

  lemma WantedSnoc(init: seq<Wanted>, w: Wanted, k: Key)
    ensures IsWanted(init + [w], k) <==> IsWanted(init, k) || k == w.key
  {
    var all := init + [w];
    assert all[|init|] == w;
    if IsWanted(init, k) {
      var i :| 0 <= i < |init| && init[i].key == k;
      assert all[i].key == k;
    }
  }

  /** The state after the pairs in `met`, none of which failed. */
  ghost predicate InStep(objects: Objects, met: seq<Wanted>, bindingName: string, s: Run) {
    && s.outcome == Fine && s.objects == PutAll(objects, met, bindingName)
    && (forall k :: k in s.left <==> k in Owned(objects, bindingName) && !IsWanted(met, k))
    && (forall k :: k in s.left ==> s.left[k] == objects[k])
  }

  lemma StepForward(objects: Objects, met: seq<Wanted>, w: Wanted, bindingName: string, s: Run)
    requires WellKeyed(objects) && InStep(objects, met, bindingName, s) && InControlPlane(w.key.0)
    requires s.left != map[] ==> s.last.Some?
    requires Syncable(objects, met, bindingName)
    ensures var t := Step(s, w, bindingName, PerIteration);
      if Syncable(objects, met + [w], bindingName) then InStep(objects, met + [w], bindingName, t)
        else t.outcome != Fine
  {
    PutAllKeeps(objects, met, bindingName);
    SyncableSnoc(objects, met, w, bindingName);
    if Syncable(objects, met + [w], bindingName) {
      StepPuts(objects, met, w, bindingName, s);
    }
  }

  /** A pair that is not in the way is put into the store, by an update or a creation. */
  lemma StepPuts(objects: Objects, met: seq<Wanted>, w: Wanted, bindingName: string, s: Run)
    requires WellKeyed(objects) && InStep(objects, met, bindingName, s)
    requires s.left != map[] ==> s.last.Some?
    requires !IsWanted(met, w.key)
    requires w.key in objects ==> w.key in Owned(objects, bindingName) && objects[w.key].raw.Some? && w.raw.Some?
    ensures InStep(objects, met + [w], bindingName, Step(s, w, bindingName, PerIteration))
  {
    PutAllKeeps(objects, met, bindingName);
    StepIsPut(objects, s, w, bindingName);
    assert (met + [w])[..|met|] == met;
    forall k ensures IsWanted(met + [w], k) <==> IsWanted(met, k) || k == w.key {
      WantedSnoc(met, w, k);
    }
  }

  lemma StepIsPut(objects: Objects, s: Run, w: Wanted, bindingName: string)
    requires WellKeyed(objects) && s.outcome == Fine && (s.left != map[] ==> s.last.Some?)
    requires w.key in s.left <==> w.key in s.objects
    requires w.key in s.left ==> w.key in objects && s.left[w.key] == objects[w.key] == s.objects[w.key]
    requires w.key in s.left ==> s.left[w.key].raw.Some? && w.raw.Some?
    ensures var t := Step(s, w, bindingName, PerIteration);
      t.outcome == Fine && t.objects == Put(s.objects, w, bindingName) && t.left == s.left - {w.key}
  {
  }

  lemma SyncableSnoc(objects: Objects, met: seq<Wanted>, w: Wanted, bindingName: string)
    ensures Syncable(objects, met + [w], bindingName) <==>
      && Syncable(objects, met, bindingName) && !IsWanted(met, w.key)
      && (w.key in objects ==> w.key in Owned(objects, bindingName) && objects[w.key].raw.Some? && w.raw.Some?)
  {
    var all := met + [w];
    assert all[|met|] == w && forall i :: 0 <= i < |met| ==> all[i] == met[i];
  }

  lemma {:induction false} StepsForward(objects: Objects, met: seq<Wanted>, rest: seq<Wanted>, bindingName: string,
                                        s: Run)
    requires WellKeyed(objects) && InStep(objects, met, bindingName, s) && WantedInControlPlane(rest)
    requires s.left != map[] ==> s.last.Some?
    requires Syncable(objects, met, bindingName)
    ensures var t := Steps(s, rest, bindingName, PerIteration);
      if Syncable(objects, met + rest, bindingName) then InStep(objects, met + rest, bindingName, t)
        else t.outcome != Fine
    decreases |rest|
  {
    hide Step, PutAll, Owned, IsWanted, Syncable;
    if rest == [] {
      assert met + rest == met;
    } else {
      var w := rest[0];
      StepForward(objects, met, w, bindingName, s);
      StepKeepsLast(s, w, bindingName, PerIteration);
      assert met + [w] + rest[1..] == met + rest;
      if Syncable(objects, met + [w], bindingName) {
        StepsForward(objects, met + [w], rest[1..], bindingName, Step(s, w, bindingName, PerIteration));
      } else {
        NotSyncableOn(objects, met + [w], rest[1..], bindingName);
      }
    }
  }

  lemma NotSyncableOn(objects: Objects, a: seq<Wanted>, b: seq<Wanted>, bindingName: string)
    requires !Syncable(objects, a, bindingName)
    ensures !Syncable(objects, a + b, bindingName)
  {
    assert forall i :: 0 <= i < |a| ==> (a + b)[i] == a[i];
  }

  /** With a variable per iteration a sync succeeds exactly on a syncable store, and then leaves the target. */
  lemma SyncConverges(objects: Objects, wanted: seq<Wanted>, bindingName: string, last: Option<ClusterResource>)
    requires WellKeyed(objects) && LastListed(objects, bindingName, last) && WantedInControlPlane(wanted)
    ensures var t := SyncAll(objects, wanted, bindingName, last, PerIteration);
      && (t.outcome == Fine <==> Syncable(objects, wanted, bindingName))
      && (t.outcome == Fine ==> t.objects == Target(objects, wanted, bindingName))
  {
    var s := Start(objects, bindingName, last);
    assert InStep(objects, [], bindingName, s);
    StepsForward(objects, [], wanted, bindingName, s);
    assert [] + wanted == wanted;
    if Syncable(objects, wanted, bindingName) {
      FinishIsTarget(objects, wanted, bindingName, Steps(s, wanted, bindingName, PerIteration));
    }
  }

  lemma FinishIsTarget(objects: Objects, wanted: seq<Wanted>, bindingName: string, t: Run)
    requires InStep(objects, wanted, bindingName, t) && (t.left != map[] ==> t.last.Some?)
    ensures Finish(t, PerIteration).outcome == Fine
      && Finish(t, PerIteration).objects == Target(objects, wanted, bindingName)
  {
    PutAllKeeps(objects, wanted, bindingName);
    assert t.objects - t.left.Keys == Target(objects, wanted, bindingName);
    assert t.left == map[] ==> t.objects == t.objects - t.left.Keys;
  }

  // ---------- what the target is, and that it is stable ----------

  lemma {:induction false} PutAllAt(objects: Objects, wanted: seq<Wanted>, bindingName: string, i: nat)
    requires i < |wanted| && forall p, q :: 0 <= p < q < |wanted| ==> wanted[p].key != wanted[q].key
    ensures var k, t := wanted[i].key, PutAll(objects, wanted, bindingName);
      k in t && t[k] == if k in objects then objects[k].(raw := wanted[i].raw) else NewResource(wanted[i], bindingName)
  {
    var init, last := wanted[..|wanted| - 1], wanted[|wanted| - 1];
    if i < |init| {
      PutAllAt(objects, init, bindingName, i);
    } else {
      PutAllKeeps(objects, init, bindingName);
      assert !IsWanted(init, last.key);
    }
  }

  /** The target in plain words: exactly one object per wanted key, with the patched content and the
      binding's label; nothing else of the binding in the control plane; the rest untouched. */
  lemma TargetIs(objects: Objects, wanted: seq<Wanted>, bindingName: string)
    requires WellKeyed(objects) && WantedInControlPlane(wanted) && Syncable(objects, wanted, bindingName)
    ensures var t := Target(objects, wanted, bindingName);
      && WellKeyed(t)
      && (forall i :: 0 <= i < |wanted| ==>
            wanted[i].key in Owned(t, bindingName) && t[wanted[i].key].raw == wanted[i].raw)
      && (forall k :: k in Owned(t, bindingName) ==> IsWanted(wanted, k))
      && (forall k :: !IsWanted(wanted, k) ==> (k in t <==> k in objects && k !in Owned(objects, bindingName)))
      && (forall k :: !IsWanted(wanted, k) && k in t ==> t[k] == objects[k])
  {
    PutAllKeeps(objects, wanted, bindingName);
    var t := Target(objects, wanted, bindingName);
    forall i | 0 <= i < |wanted|
      ensures wanted[i].key in Owned(t, bindingName) && t[wanted[i].key].raw == wanted[i].raw
        && KeyOf(t[wanted[i].key]) == wanted[i].key
    {
      PutAllAt(objects, wanted, bindingName, i);
      assert IsWanted(wanted, wanted[i].key);
    }
    forall k | k in t ensures KeyOf(t[k]) == k {
      if IsWanted(wanted, k) {
        var i :| 0 <= i < |wanted| && wanted[i].key == k;
      }
    }
  }

  /** Pairs whose resource is there with the wanted content are met without a write. */
  lemma {:induction false} StepsRest(s: Run, wanted: seq<Wanted>, bindingName: string)
    requires s.outcome == Fine && (s.left != map[] ==> s.last.Some?)
    requires forall i, j :: 0 <= i < j < |wanted| ==> wanted[i].key != wanted[j].key
    requires forall i :: 0 <= i < |wanted| ==>
      wanted[i].raw.Some? && wanted[i].key in s.left && s.left[wanted[i].key].raw == wanted[i].raw
    ensures var t := Steps(s, wanted, bindingName, PerIteration);
      && t.outcome == Fine && t.objects == s.objects && t.writes == s.writes
      && (forall k :: k in t.left <==> k in s.left && !IsWanted(wanted, k))
    decreases |wanted|
  {
    if wanted != [] {
      var w, rest := wanted[0], wanted[1..];
      StepKeepsLast(s, w, bindingName, PerIteration);
      assert forall i :: 0 <= i < |rest| ==> rest[i] == wanted[i + 1];
      StepsRest(Step(s, w, bindingName, PerIteration), rest, bindingName);
      WantedFirst(wanted);
    }
  }

  lemma WantedFirst(wanted: seq<Wanted>)
    requires wanted != []
    ensures forall k :: IsWanted(wanted, k) <==> IsWanted(wanted[1..], k) || k == wanted[0].key
  {
    var rest := wanted[1..];
    forall k ensures IsWanted(wanted, k) <==> IsWanted(rest, k) || k == wanted[0].key {
      if IsWanted(rest, k) {
        var i :| 0 <= i < |rest| && rest[i].key == k;
        assert wanted[i + 1].key == k;
      }
    }
  }

  /** A second sync, over any listing of the new store, writes nothing. */
  lemma SyncIsIdempotent(objects: Objects, wanted: seq<Wanted>, bindingName: string, last: Option<ClusterResource>)
    requires WellKeyed(objects) && WantedInControlPlane(wanted) && Syncable(objects, wanted, bindingName)
    requires forall i :: 0 <= i < |wanted| ==> wanted[i].raw.Some?
    requires LastListed(Target(objects, wanted, bindingName), bindingName, last)
    ensures var t := Target(objects, wanted, bindingName);
      var again := SyncAll(t, wanted, bindingName, last, PerIteration);
      again.outcome == Fine && again.objects == t && again.writes == 0
  {
    TargetIs(objects, wanted, bindingName);
    var t := Target(objects, wanted, bindingName);
    var s := Start(t, bindingName, last);
    StepsRest(s, wanted, bindingName);
    assert Steps(s, wanted, bindingName, PerIteration).left == map[];
  }

  lemma {:induction false} PutAllSame(objects: Objects, wanted: seq<Wanted>, bindingName: string)
    requires forall i :: 0 <= i < |wanted| ==> wanted[i].key in objects && objects[wanted[i].key].raw == wanted[i].raw
    ensures PutAll(objects, wanted, bindingName) == objects
  {
    if wanted != [] {
      PutAllSame(objects, wanted[..|wanted| - 1], bindingName);
    }
  }

  /** The target is its own target. */
  lemma TargetIsStable(objects: Objects, wanted: seq<Wanted>, bindingName: string)
    requires WellKeyed(objects) && WantedInControlPlane(wanted) && Syncable(objects, wanted, bindingName)
    requires forall i :: 0 <= i < |wanted| ==> wanted[i].raw.Some?
    ensures var t := Target(objects, wanted, bindingName);
      Syncable(t, wanted, bindingName) && Target(t, wanted, bindingName) == t
  {
    TargetIs(objects, wanted, bindingName);
    PutAllSame(Target(objects, wanted, bindingName), wanted, bindingName);
  }

  /** The target object by object: a stored object under a wanted key only gets the new content, a new one has no
      status yet; of the others only the binding's own in control-plane namespaces are gone. */
  lemma TargetInFull(objects: Objects, wanted: seq<Wanted>, bindingName: string)
    requires WellKeyed(objects) && WantedInControlPlane(wanted) && Syncable(objects, wanted, bindingName)
    ensures var t := Target(objects, wanted, bindingName);
      && (forall i :: 0 <= i < |wanted| ==>
            var k := wanted[i].key;
            k in t && t[k] == if k in objects then objects[k].(raw := wanted[i].raw)
                              else ClusterResource(k.0, k.1, bindingName, wanted[i].raw, Status("", "", 0)))
      && (forall k :: !IsWanted(wanted, k) ==>
            && (k in t <==>
              k in objects && !(objects[k].binding == bindingName && "stellaris-harmonycloud-cn-" <= k.0))
            && (k in t ==> t[k] == objects[k]))
  {
    TargetIs(objects, wanted, bindingName);
    forall i | 0 <= i < |wanted| {
      PutAllAt(objects, wanted, bindingName, i);
    }
  }

  // ---------- how a blocked sync fails ----------

  lemma StepBlocked(objects: Objects, met: seq<Wanted>, w: Wanted, bindingName: string, s: Run)
    requires WellKeyed(objects) && InStep(objects, met, bindingName, s) && InControlPlane(w.key.0)
    requires s.left != map[] ==> s.last.Some?
    requires Syncable(objects, met, bindingName) && !Syncable(objects, met + [w], bindingName)
    ensures var t := Step(s, w, bindingName, PerIteration);
      && t.objects == s.objects
      && t.outcome == if w.key in Owned(objects, bindingName) && !IsWanted(met, w.key) then NilPanic else AlreadyExists
  {
    PutAllKeeps(objects, met, bindingName);
    SyncableSnoc(objects, met, w, bindingName);
  }

  /** The first pair in the way ends the sync: an object of the binding without content to compare is a nil
      dereference, any other object under the key exists already. The pairs before have been put into the store,
      and nothing was deleted. */
  lemma SyncBlocked(objects: Objects, met: seq<Wanted>, w: Wanted, rest: seq<Wanted>, bindingName: string,
                    last: Option<ClusterResource>)
    requires WellKeyed(objects) && LastListed(objects, bindingName, last)
    requires WantedInControlPlane(met) && InControlPlane(w.key.0)
    requires Syncable(objects, met, bindingName) && !Syncable(objects, met + [w], bindingName)
    ensures var t := SyncAll(objects, met + [w] + rest, bindingName, last, PerIteration);
      && t.objects == PutAll(objects, met, bindingName)
      && t.outcome == if w.key in Owned(objects, bindingName) && !IsWanted(met, w.key) then NilPanic else AlreadyExists
  {
    hide Step, Steps, PutAll, Owned, Syncable, IsWanted, Finish;
    var s := Start(objects, bindingName, last);
    StartInStep(objects, bindingName, last);
    assert [] + met == met;
    StepsForward(objects, [], met, bindingName, s);
    StepsAppend(s, met, [w] + rest, bindingName, PerIteration);
    assert met + [w] + rest == met + ([w] + rest);
    var mid := Steps(s, met, bindingName, PerIteration);
    StepBlocked(objects, met, w, bindingName, mid);
    StepsFail(mid, w, rest, bindingName);
  }

  lemma StartInStep(objects: Objects, bindingName: string, last: Option<ClusterResource>)
    requires LastListed(objects, bindingName, last)
    ensures InStep(objects, [], bindingName, Start(objects, bindingName, last)) && Syncable(objects, [], bindingName)
    ensures Start(objects, bindingName, last).left != map[] ==> last.Some?
  {
  }

  lemma StepsFail(s: Run, w: Wanted, rest: seq<Wanted>, bindingName: string)
    requires s.outcome == Fine && (s.left != map[] ==> s.last.Some?)
    requires Step(s, w, bindingName, PerIteration).outcome != Fine
    ensures Steps(s, [w] + rest, bindingName, PerIteration) == Step(s, w, bindingName, PerIteration)
    ensures Finish(Step(s, w, bindingName, PerIteration), PerIteration) == Step(s, w, bindingName, PerIteration)
  {
    assert ([w] + rest)[0] == w && ([w] + rest)[1..] == rest;
  }

  lemma {:induction false} StepsAppend(s: Run, a: seq<Wanted>, b: seq<Wanted>, bindingName: string, loopVar: LoopVar)
    requires s.left != map[] ==> s.last.Some?
    ensures Steps(s, a + b, bindingName, loopVar) == Steps(Steps(s, a, bindingName, loopVar), b, bindingName, loopVar)
    decreases |a|
  {
    if a == [] {
      assert a + b == b;
    } else {
      assert (a + b)[1..] == a[1..] + b;
      if s.outcome == Fine {
        StepKeepsLast(s, a[0], bindingName, loopVar);
        StepsAppend(Step(s, a[0], bindingName, loopVar), a[1..], b, bindingName, loopVar);
      }
    }
  }

  // ---------- writes ----------

  lemma {:induction false} StepsWrite(s: Run, wanted: seq<Wanted>, bindingName: string, loopVar: LoopVar)
    requires s.left != map[] ==> s.last.Some?
    ensures var t := Steps(s, wanted, bindingName, loopVar);
      t.writes >= s.writes && (t.writes == s.writes ==> t.objects == s.objects)
    decreases |wanted|
  {
    if wanted != [] && s.outcome == Fine {
      StepKeepsLast(s, wanted[0], bindingName, loopVar);
      StepsWrite(Step(s, wanted[0], bindingName, loopVar), wanted[1..], bindingName, loopVar);
    }
  }

  /** A sync that writes nothing changes nothing, in either reading of the loop variable. */
  lemma QuietChangesNothing(objects: Objects, wanted: seq<Wanted>, bindingName: string, last: Option<ClusterResource>,
                            loopVar: LoopVar)
    requires LastListed(objects, bindingName, last)
    ensures var t := SyncAll(objects, wanted, bindingName, last, loopVar); t.writes == 0 ==> t.objects == objects
  {
    StepsWrite(Start(objects, bindingName, last), wanted, bindingName, loopVar);
    var s := Steps(Start(objects, bindingName, last), wanted, bindingName, loopVar);
    assert s.left != map[] ==> |s.left| > 0;
  }
}
