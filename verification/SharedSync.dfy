/** The sync with one loop variable for the whole listing loop, as Go 1.16 has it: every address in
    the map leads to the last listed resource `x`. */
module SharedSync {
  import opened Wrappers
  import opened ClusterResources
  import opened Sync

  /** The last wanted resource among those the map holds: its content ends up in x. */
  function LastHit(objects: Objects, wanted: seq<Wanted>, bindingName: string): Option<Wanted> {
    if wanted == [] then None
    else if wanted[|wanted| - 1].key in Owned(objects, bindingName) then Some(wanted[|wanted| - 1])
    else LastHit(objects, wanted[..|wanted| - 1], bindingName)
  }

  /** x as the run leaves it. */
  function Overwritten(objects: Objects, wanted: seq<Wanted>, bindingName: string,
                       x: ClusterResource): ClusterResource {
    var hit := LastHit(objects, wanted, bindingName);
    if hit.None? then x else x.(raw := hit.value.raw)
  }

  /** Only creations. */
  function CreateAll(objects: Objects, wanted: seq<Wanted>, bindingName: string): Objects {
    if wanted == [] then objects
    else
      var before, w := CreateAll(objects, wanted[..|wanted| - 1], bindingName), wanted[|wanted| - 1];
      if w.key in objects then before else before[w.key := NewResource(w, bindingName)]
  }

  lemma {:induction false} CreateAllKeys(objects: Objects, wanted: seq<Wanted>, bindingName: string)
    ensures var t := CreateAll(objects, wanted, bindingName);
      && (forall k :: k in t <==> k in objects || IsWanted(wanted, k))
      && (forall k :: k in objects ==> t[k] == objects[k])
  {
    if wanted != [] {
      var init, w := wanted[..|wanted| - 1], wanted[|wanted| - 1];
      CreateAllKeys(objects, init, bindingName);
      forall k ensures IsWanted(wanted, k) <==> IsWanted(init, k) || k == w.key {
        WantedSnoc(init, w, k);
        assert wanted == init + [w];
      }
    }
  }

  lemma {:induction false} CreateAllAt(objects: Objects, wanted: seq<Wanted>, bindingName: string, i: nat)
    requires i < |wanted| && forall p, q :: 0 <= p < q < |wanted| ==> wanted[p].key != wanted[q].key
    ensures wanted[i].key !in objects ==>
      var t := CreateAll(objects, wanted, bindingName);
      wanted[i].key in t && t[wanted[i].key] == NewResource(wanted[i], bindingName)
  {
    var init := wanted[..|wanted| - 1];
    if i < |init| {
      CreateAllAt(objects, init, bindingName, i);
    }
  }

  /** x has content, or nothing wanted is compared with it. */
  predicate Ready(objects: Objects, wanted: seq<Wanted>, bindingName: string, x: ClusterResource) {
    x.raw.Some? || forall i :: 0 <= i < |wanted| ==> wanted[i].key !in Owned(objects, bindingName)
  }

  ghost predicate InStepShared(objects: Objects, met: seq<Wanted>, bindingName: string, x: ClusterResource, s: Run) {
    && s.outcome == Fine
    && s.last == Some(Overwritten(objects, met, bindingName, x))
    && s.objects == CreateAll(objects, met, bindingName)[Sync.KeyOf(x) := Overwritten(objects, met, bindingName, x)]
    && (forall k :: k in s.left <==> k in Owned(objects, bindingName) && !IsWanted(met, k))
  }

  lemma HitShared(objects: Objects, met: seq<Wanted>, w: Wanted, bindingName: string, x: ClusterResource, s: Run)
    requires Sync.KeyOf(x) in objects && w.raw.Some? && Overwritten(objects, met, bindingName, x).raw.Some?
    requires InStepShared(objects, met, bindingName, x, s) && w.key in s.left
    ensures var t, now := Step(s, w, bindingName, Shared), Overwritten(objects, met, bindingName, x).(raw := w.raw);
      && t.outcome == Fine && t.last == Some(now) && t.left == s.left - {w.key}
      && t.objects == s.objects[Sync.KeyOf(x) := now]
  {
  }

  lemma StepShared(objects: Objects, met: seq<Wanted>, w: Wanted, bindingName: string, x: ClusterResource, s: Run)
    requires Sync.KeyOf(x) in objects && InStepShared(objects, met, bindingName, x, s)
    requires w.key in Owned(objects, bindingName) ==> w.raw.Some? && Overwritten(objects, met, bindingName, x).raw.Some?
    requires Syncable(objects, met + [w], bindingName)
    ensures InStepShared(objects, met + [w], bindingName, x, Step(s, w, bindingName, Shared))
  {
    SyncableSnoc(objects, met, w, bindingName);
    assert (met + [w])[..|met|] == met;
    forall k ensures IsWanted(met + [w], k) <==> IsWanted(met, k) || k == w.key {
      WantedSnoc(met, w, k);
    }
    if w.key in s.left {
      HitShared(objects, met, w, bindingName, x, s);
      OverwriteAgain(CreateAll(objects, met, bindingName), Sync.KeyOf(x), Overwritten(objects, met, bindingName, x),
                     Overwritten(objects, met + [w], bindingName, x));
    } else {
      MissShared(objects, met, w, bindingName, x, s);
    }
  }

  lemma OverwriteAgain(c: Objects, k: Key, a: ClusterResource, b: ClusterResource)
    ensures c[k := a][k := b] == c[k := b]
  {
  }

  lemma MissShared(objects: Objects, met: seq<Wanted>, w: Wanted, bindingName: string, x: ClusterResource, s: Run)
    requires Sync.KeyOf(x) in objects && InStepShared(objects, met, bindingName, x, s)
    requires Syncable(objects, met + [w], bindingName) && w.key !in s.left
    ensures var t, c := Step(s, w, bindingName, Shared), CreateAll(objects, met, bindingName);
      && w.key !in objects && t.outcome == Fine && t.last == s.last && t.left == s.left
      && t.objects
        == c[w.key := NewResource(w, bindingName)][Sync.KeyOf(x) := Overwritten(objects, met, bindingName, x)]
  {
    SyncableSnoc(objects, met, w, bindingName);
    CreateAllKeys(objects, met, bindingName);
    var c, before := CreateAll(objects, met, bindingName), Overwritten(objects, met, bindingName, x);
    var created := NewResource(w, bindingName);
    assert c[Sync.KeyOf(x) := before][w.key := created] == c[w.key := created][Sync.KeyOf(x) := before];
  }

  /** What overwrites x has content. */
  lemma {:induction false} OverwrittenReady(objects: Objects, wanted: seq<Wanted>, bindingName: string,
                                            x: ClusterResource)
    requires x.raw.Some? && Syncable(objects, wanted, bindingName)
    ensures Overwritten(objects, wanted, bindingName, x).raw.Some?
  {
    if wanted != [] {
      var init, w := wanted[..|wanted| - 1], wanted[|wanted| - 1];
      assert wanted == init + [w];
      SyncableSnoc(objects, init, w, bindingName);
      OverwrittenReady(objects, init, bindingName, x);
    }
  }

  lemma SyncableFront(objects: Objects, met: seq<Wanted>, w: Wanted, rest: seq<Wanted>, bindingName: string)
    requires Syncable(objects, met + ([w] + rest), bindingName)
    ensures met + ([w] + rest) == met + [w] + rest
    ensures Syncable(objects, met + [w], bindingName) && Syncable(objects, met, bindingName)
    ensures w.key in Owned(objects, bindingName) ==> w.raw.Some?
  {
    assert met + ([w] + rest) == met + [w] + rest;
    if !Syncable(objects, met + [w], bindingName) {
      NotSyncableOn(objects, met + [w], rest, bindingName);
    }
    SyncableSnoc(objects, met, w, bindingName);
  }

  lemma ReadyFront(objects: Objects, w: Wanted, rest: seq<Wanted>, bindingName: string, x: ClusterResource)
    requires Ready(objects, [w] + rest, bindingName, x)
    ensures w.key in Owned(objects, bindingName) ==> x.raw.Some?
    ensures Ready(objects, rest, bindingName, x)
  {
    var all := [w] + rest;
    assert all[0] == w && forall i :: 0 <= i < |rest| ==> all[i + 1] == rest[i];
  }

  lemma {:induction false} StepsShared(objects: Objects, met: seq<Wanted>, rest: seq<Wanted>, bindingName: string,
                                       x: ClusterResource, s: Run)
    requires Sync.KeyOf(x) in objects && Ready(objects, rest, bindingName, x)
      && Syncable(objects, met + rest, bindingName)
    requires InStepShared(objects, met, bindingName, x, s)
    ensures InStepShared(objects, met + rest, bindingName, x, Steps(s, rest, bindingName, Shared))
    decreases |rest|
  {
    hide Step, Syncable, Overwritten, CreateAll, Owned, Ready;
    if rest == [] {
      assert met + rest == met;
    } else {
      var w, tail := rest[0], rest[1..];
      assert rest == [w] + tail;
      ReadyFront(objects, w, tail, bindingName, x);
      SyncableFront(objects, met, w, tail, bindingName);
      if x.raw.Some? {
        OverwrittenReady(objects, met, bindingName, x);
      }
      StepShared(objects, met, w, bindingName, x, s);
      StepsShared(objects, met + [w], tail, bindingName, x, Step(s, w, bindingName, Shared));
    }
  }

  lemma {:induction false} NoHits(objects: Objects, wanted: seq<Wanted>, bindingName: string)
    requires forall i :: 0 <= i < |wanted| ==> wanted[i].key !in Owned(objects, bindingName)
    ensures LastHit(objects, wanted, bindingName) == None
  {
    if wanted != [] {
      NoHits(objects, wanted[..|wanted| - 1], bindingName);
    }
  }

  lemma HitPanics(objects: Objects, met: seq<Wanted>, w: Wanted, bindingName: string, x: ClusterResource, s: Run)
    requires Syncable(objects, met + [w], bindingName) && x.raw.None? && w.key in Owned(objects, bindingName)
    requires InStepShared(objects, met, bindingName, x, s)
    requires forall i :: 0 <= i < |met| ==> met[i].key !in Owned(objects, bindingName)
    ensures Step(s, w, bindingName, Shared).outcome == NilPanic
  {
    NoHits(objects, met, bindingName);
    SyncableSnoc(objects, met, w, bindingName);
  }

  /** Comparing with an x without content is a nil dereference. */
  lemma {:induction false} NotReadyPanics(objects: Objects, met: seq<Wanted>, rest: seq<Wanted>, bindingName: string,
                                          x: ClusterResource, s: Run)
    requires Sync.KeyOf(x) in objects && Syncable(objects, met + rest, bindingName) && x.raw.None?
    requires InStepShared(objects, met, bindingName, x, s) && !Ready(objects, rest, bindingName, x)
    requires forall i :: 0 <= i < |met| ==> met[i].key !in Owned(objects, bindingName)
    ensures Steps(s, rest, bindingName, Shared).outcome != Fine
    decreases |rest|
  {
    hide Step, Syncable, Overwritten, CreateAll;
    var w, tail := rest[0], rest[1..];
    assert rest == [w] + tail;
    SyncableFront(objects, met, w, tail, bindingName);
    if w.key in Owned(objects, bindingName) {
      HitPanics(objects, met, w, bindingName, x, s);
    } else {
      StepShared(objects, met, w, bindingName, x, s);
      assert forall i :: 0 <= i < |tail| ==> tail[i] == rest[i + 1];
      NotReadyPanics(objects, met + [w], tail, bindingName, x, Step(s, w, bindingName, Shared));
    }
  }

  /** The binding's resources that are not wanted any more. */
  function Leftover(objects: Objects, wanted: seq<Wanted>, bindingName: string): set<Key> {
    set k | k in Owned(objects, bindingName) && !IsWanted(wanted, k)
  }

  /** When the shared variable does no harm: the other resources already have their content, and either
      nothing is left over and x ends with its own content, or x is the one thing left over. */
  predicate Harmless(objects: Objects, wanted: seq<Wanted>, bindingName: string, x: ClusterResource) {
    && (forall i ::
      0 <= i < |wanted| && wanted[i].key in Owned(objects, bindingName) && wanted[i].key != Sync.KeyOf(x) ==>
          objects[wanted[i].key].raw == wanted[i].raw)
    && var leftover := Leftover(objects, wanted, bindingName);
       if leftover != {} then leftover == {Sync.KeyOf(x)}
       else EndsWithOwn(objects, wanted, bindingName, x)
  }

  predicate EndsWithOwn(objects: Objects, wanted: seq<Wanted>, bindingName: string, x: ClusterResource) {
    if IsWanted(wanted, Sync.KeyOf(x)) then
      exists i :: 0 <= i < |wanted| && wanted[i].key == Sync.KeyOf(x)
        && wanted[i].raw == Overwritten(objects, wanted, bindingName, x).raw
    else Overwritten(objects, wanted, bindingName, x).raw == x.raw
  }

  /** The store of the whole run before deletion agrees with the target everywhere but at x and at
      what is left over, exactly when the other resources already have their content. */
  lemma BeforeDeletion(objects: Objects, wanted: seq<Wanted>, bindingName: string, x: ClusterResource, k: Key)
    requires WellKeyed(objects) && WantedInControlPlane(wanted) && Syncable(objects, wanted, bindingName)
    requires k != Sync.KeyOf(x) && k !in Leftover(objects, wanted, bindingName)
    ensures var c, t := CreateAll(objects, wanted, bindingName), Target(objects, wanted, bindingName);
      && (k in c <==> k in t)
      && (k in c ==> (c[k] == t[k] <==>
            forall i :: 0 <= i < |wanted| && wanted[i].key == k && k in objects ==> objects[k].raw == wanted[i].raw))
  {
    CreateAllKeys(objects, wanted, bindingName);
    TargetIs(objects, wanted, bindingName);
    PutAllKeeps(objects, wanted, bindingName);
    if IsWanted(wanted, k) {
      var i :| 0 <= i < |wanted| && wanted[i].key == k;
      CreateAllAt(objects, wanted, bindingName, i);
      PutAllAt(objects, wanted, bindingName, i);
    }
  }

  /** The run's store after the steps and the deletion, when at most one thing is left over. */
  function SharedStore(objects: Objects, wanted: seq<Wanted>, bindingName: string, x: ClusterResource): Objects {
    var c := CreateAll(objects, wanted, bindingName)[Sync.KeyOf(x) := Overwritten(objects, wanted, bindingName, x)];
    if Leftover(objects, wanted, bindingName) == {} then c else c - {Sync.KeyOf(x)}
  }

  lemma StoreAtX(objects: Objects, wanted: seq<Wanted>, bindingName: string, x: ClusterResource)
    requires WellKeyed(objects) && WantedInControlPlane(wanted) && Syncable(objects, wanted, bindingName)
    requires Sync.KeyOf(x) in objects && objects[Sync.KeyOf(x)] == x && x.binding == bindingName
    ensures var t, k := Target(objects, wanted, bindingName), Sync.KeyOf(x);
      && (k in t <==> k !in Leftover(objects, wanted, bindingName))
      && (k in t ==>
        (t[k] == Overwritten(objects, wanted, bindingName, x) <==> EndsWithOwn(objects, wanted, bindingName, x)))
  {
    TargetIs(objects, wanted, bindingName);
    PutAllKeeps(objects, wanted, bindingName);
    var k := Sync.KeyOf(x);
    if IsWanted(wanted, k) {
      var i :| 0 <= i < |wanted| && wanted[i].key == k;
      PutAllAt(objects, wanted, bindingName, i);
    }
  }

  lemma HarmlessAt(objects: Objects, wanted: seq<Wanted>, bindingName: string, x: ClusterResource, k: Key)
    requires WellKeyed(objects) && WantedInControlPlane(wanted) && Syncable(objects, wanted, bindingName)
    requires Sync.KeyOf(x) in objects && objects[Sync.KeyOf(x)] == x && x.binding == bindingName
    requires Harmless(objects, wanted, bindingName, x)
    ensures var store, t := SharedStore(objects, wanted, bindingName, x), Target(objects, wanted, bindingName);
      (k in store <==> k in t) && (k in store ==> store[k] == t[k])
  {
    StoreAtX(objects, wanted, bindingName, x);
    if k != Sync.KeyOf(x) {
      BeforeDeletion(objects, wanted, bindingName, x, k);
      if k in objects && IsWanted(wanted, k) {
        SyncableOwned(objects, wanted, bindingName, k);
      }
    }
  }

  /** What is wanted and already stored belongs to the binding, or the run would be blocked. */
  lemma SyncableOwned(objects: Objects, wanted: seq<Wanted>, bindingName: string, k: Key)
    requires Syncable(objects, wanted, bindingName) && k in objects && IsWanted(wanted, k)
    ensures k in Owned(objects, bindingName)
  {
  }

  lemma HarmlessMeansTarget(objects: Objects, wanted: seq<Wanted>, bindingName: string, x: ClusterResource)
    requires WellKeyed(objects) && WantedInControlPlane(wanted) && Syncable(objects, wanted, bindingName)
    requires Sync.KeyOf(x) in objects && objects[Sync.KeyOf(x)] == x && x.binding == bindingName
    requires Harmless(objects, wanted, bindingName, x)
    ensures SharedStore(objects, wanted, bindingName, x) == Target(objects, wanted, bindingName)
  {
    var store, t := SharedStore(objects, wanted, bindingName, x), Target(objects, wanted, bindingName);
    forall k ensures (k in store <==> k in t) && (k in store ==> store[k] == t[k]) {
      HarmlessAt(objects, wanted, bindingName, x, k);
    }
  }

  lemma TargetMeansHarmless(objects: Objects, wanted: seq<Wanted>, bindingName: string, x: ClusterResource)
    requires WellKeyed(objects) && WantedInControlPlane(wanted) && Syncable(objects, wanted, bindingName)
    requires Sync.KeyOf(x) in objects && objects[Sync.KeyOf(x)] == x && x.binding == bindingName
    requires |Leftover(objects, wanted, bindingName)| <= 1
    requires SharedStore(objects, wanted, bindingName, x) == Target(objects, wanted, bindingName)
    ensures Harmless(objects, wanted, bindingName, x)
  {
    var store, t := SharedStore(objects, wanted, bindingName, x), Target(objects, wanted, bindingName);
    var leftover := Leftover(objects, wanted, bindingName);
    StoreAtX(objects, wanted, bindingName, x);
    TargetIs(objects, wanted, bindingName);
    CreateAllKeys(objects, wanted, bindingName);
    forall i | 0 <= i < |wanted| && wanted[i].key in Owned(objects, bindingName) && wanted[i].key != Sync.KeyOf(x)
      ensures objects[wanted[i].key].raw == wanted[i].raw
    {
      var k := wanted[i].key;
      assert IsWanted(wanted, k) && k !in leftover;
      BeforeDeletion(objects, wanted, bindingName, x, k);
    }
    if leftover != {} {
      LeftoverIsX(objects, wanted, bindingName, x);
    }
  }

  /** On the target nothing but x was left over. */
  lemma LeftoverIsX(objects: Objects, wanted: seq<Wanted>, bindingName: string, x: ClusterResource)
    requires WellKeyed(objects) && WantedInControlPlane(wanted) && Syncable(objects, wanted, bindingName)
    requires Sync.KeyOf(x) in objects && Leftover(objects, wanted, bindingName) != {}
    requires SharedStore(objects, wanted, bindingName, x) == Target(objects, wanted, bindingName)
    ensures Leftover(objects, wanted, bindingName) == {Sync.KeyOf(x)}
  {
    TargetIs(objects, wanted, bindingName);
    CreateAllKeys(objects, wanted, bindingName);
    forall k | k in Leftover(objects, wanted, bindingName) ensures k == Sync.KeyOf(x) {
      assert k !in Target(objects, wanted, bindingName);
    }
  }

  /** With one loop variable a sync that the store does not block converges exactly in the harmless case,
      if x has content where it is compared. */
  lemma SharedExact(objects: Objects, wanted: seq<Wanted>, bindingName: string, x: ClusterResource)
    requires WellKeyed(objects) && LastListed(objects, bindingName, Some(x)) && WantedInControlPlane(wanted)
    requires Syncable(objects, wanted, bindingName)
    ensures var t := SyncAll(objects, wanted, bindingName, Some(x), Shared);
      t.outcome == Fine && t.objects == Target(objects, wanted, bindingName) <==>
        Ready(objects, wanted, bindingName, x) && Harmless(objects, wanted, bindingName, x)
  {
    var s := Start(objects, bindingName, Some(x));
    assert objects == objects[Sync.KeyOf(x) := x];
    assert InStepShared(objects, [], bindingName, x, s);
    assert [] + wanted == wanted;
    if Ready(objects, wanted, bindingName, x) {
      StepsShared(objects, [], wanted, bindingName, x, s);
      SharedOutcome(objects, wanted, bindingName, x, Steps(s, wanted, bindingName, Shared));
    } else {
      NotReadyPanics(objects, [], wanted, bindingName, x, s);
    }
  }

  lemma SharedOutcome(objects: Objects, wanted: seq<Wanted>, bindingName: string, x: ClusterResource, t: Run)
    requires WellKeyed(objects) && LastListed(objects, bindingName, Some(x)) && WantedInControlPlane(wanted)
    requires Syncable(objects, wanted, bindingName) && InStepShared(objects, wanted, bindingName, x, t)
    ensures var done := Finish(t, Shared);
      done.outcome == Fine && done.objects == Target(objects, wanted, bindingName) <==>
        Harmless(objects, wanted, bindingName, x)
  {
    FinishShared(objects, wanted, bindingName, x, t);
    if |Leftover(objects, wanted, bindingName)| <= 1 {
      if Harmless(objects, wanted, bindingName, x) {
        HarmlessMeansTarget(objects, wanted, bindingName, x);
      }
      if SharedStore(objects, wanted, bindingName, x) == Target(objects, wanted, bindingName) {
        TargetMeansHarmless(objects, wanted, bindingName, x);
      }
    } else {
      assert |{Sync.KeyOf(x)}| == 1;
    }
  }

  lemma FinishShared(objects: Objects, wanted: seq<Wanted>, bindingName: string, x: ClusterResource, t: Run)
    requires Sync.KeyOf(x) in objects && InStepShared(objects, wanted, bindingName, x, t)
    ensures var done, leftover := Finish(t, Shared), Leftover(objects, wanted, bindingName);
      && (done.outcome == Fine <==> |leftover| <= 1)
      && (done.outcome == Fine ==> done.objects == SharedStore(objects, wanted, bindingName, x))
  {
    var leftover := Leftover(objects, wanted, bindingName);
    assert t.left.Keys == leftover;
    assert |t.left| == |t.left.Keys|;
    assert t.left == map[] <==> leftover == {};
  }

  /** Two stale resources are enough to go wrong: the second deletion does not find its object. */
  lemma TwoLeftoversFail(objects: Objects, bindingName: string, x: ClusterResource)
    requires WellKeyed(objects) && LastListed(objects, bindingName, Some(x)) && x.raw.Some?
    requires |Owned(objects, bindingName)| >= 2
    ensures SyncAll(objects, [], bindingName, Some(x), Shared).outcome == NotFound
    ensures SyncAll(objects, [], bindingName, Some(x), PerIteration).outcome == Fine
  {
    SyncConverges(objects, [], bindingName, Some(x));
  }

  // ---------- a second sync ----------

  lemma {:induction false} WritesGrow(s: Run, wanted: seq<Wanted>, bindingName: string)
    requires s.left != map[] ==> s.last.Some?
    ensures Steps(s, wanted, bindingName, Shared).writes >= s.writes
    decreases |wanted|
  {
    if wanted != [] && s.outcome == Fine {
      StepKeepsLast(s, wanted[0], bindingName, Shared);
      WritesGrow(Step(s, wanted[0], bindingName, Shared), wanted[1..], bindingName);
    }
  }

  /** Everything wanted is there to be compared with x. */
  predicate AllToMeet(s: Run, wanted: seq<Wanted>, x: ClusterResource) {
    && s.outcome == Fine && s.last == Some(x)
    && (forall i, j :: 0 <= i < j < |wanted| ==> wanted[i].key != wanted[j].key)
    && (forall i :: 0 <= i < |wanted| ==> wanted[i].key in s.left && wanted[i].raw.Some?)
  }

  predicate AllLike(wanted: seq<Wanted>, x: ClusterResource) {
    forall i :: 0 <= i < |wanted| ==> wanted[i].raw == x.raw
  }

  lemma MeetFirst(s: Run, wanted: seq<Wanted>, bindingName: string, x: ClusterResource)
    requires AllToMeet(s, wanted, x) && wanted != []
    ensures var t := Step(s, wanted[0], bindingName, Shared);
      if wanted[0].raw == x.raw then
        AllToMeet(t, wanted[1..], x) && t.writes == s.writes && t.objects == s.objects
          && t.left == s.left - {wanted[0].key}
      else t.outcome != Fine || t.writes > s.writes
  {
    assert forall i :: 0 <= i < |wanted[1..]| ==> wanted[1..][i] == wanted[i + 1];
  }

  lemma {:induction false} MeetAll(s: Run, wanted: seq<Wanted>, bindingName: string, x: ClusterResource)
    requires AllToMeet(s, wanted, x)
    ensures var t := Steps(s, wanted, bindingName, Shared);
      && (t.outcome == Fine && t.writes == s.writes <==> AllLike(wanted, x))
      && (AllLike(wanted, x) ==>
        t.objects == s.objects && forall k :: k in t.left <==> k in s.left && !IsWanted(wanted, k))
    decreases |wanted|
  {
    if wanted != [] {
      var w, rest := wanted[0], wanted[1..];
      MeetFirst(s, wanted, bindingName, x);
      var t := Step(s, w, bindingName, Shared);
      assert wanted == [w] + rest;
      assert AllLike(wanted, x) <==> w.raw == x.raw && AllLike(rest, x);
      if w.raw == x.raw {
        MeetAll(t, rest, bindingName, x);
        forall k ensures IsWanted(wanted, k) <==> IsWanted(rest, k) || k == w.key {
          WantedCons(w, rest, k);
        }
      } else {
        StepKeepsLast(s, w, bindingName, Shared);
        WritesGrow(t, rest, bindingName);
      }
    }
  }

  lemma WantedCons(w: Wanted, rest: seq<Wanted>, k: Key)
    ensures IsWanted([w] + rest, k) <==> IsWanted(rest, k) || k == w.key
  {
    var all := [w] + rest;
    assert all[0] == w;
    if IsWanted(rest, k) {
      var i :| 0 <= i < |rest| && rest[i].key == k;
      assert all[i + 1].key == k;
    }
  }

  /** A second sync of a store at its target, with one loop variable: it writes nothing if and only if
      everything wanted has the content of the resource that is listed last. */
  lemma SharedAgain(objects: Objects, wanted: seq<Wanted>, bindingName: string, x: ClusterResource)
    requires WellKeyed(objects) && WantedInControlPlane(wanted) && Syncable(objects, wanted, bindingName)
    requires forall i :: 0 <= i < |wanted| ==> wanted[i].raw.Some?
    requires LastListed(Target(objects, wanted, bindingName), bindingName, Some(x))
    ensures var t := Target(objects, wanted, bindingName);
      var again := SyncAll(t, wanted, bindingName, Some(x), Shared);
      && (again.outcome == Fine && again.writes == 0 <==> AllLike(wanted, x))
      && (AllLike(wanted, x) ==> again.objects == t)
  {
    TargetIs(objects, wanted, bindingName);
    var t := Target(objects, wanted, bindingName);
    var s := Start(t, bindingName, Some(x));
    MeetAll(s, wanted, bindingName, x);
    var met := Steps(s, wanted, bindingName, Shared);
    if AllLike(wanted, x) {
      assert met.left == map[];
    }
  }

  /** Two resources with different contents are enough: the second sync writes the first one's content
      into the second, and then the second one's back. */
  lemma SharedWritesAgain(objects: Objects, a: Wanted, b: Wanted, bindingName: string)
    requires WellKeyed(objects) && Owned(objects, bindingName).Keys == {a.key, b.key} && a.key != b.key
    requires objects[a.key].raw == a.raw && objects[b.key].raw == b.raw && a.raw.Some? && b.raw.Some? && a.raw != b.raw
    ensures LastListed(objects, bindingName, Some(objects[b.key]))
    ensures SyncAll(objects, [a, b], bindingName, Some(objects[b.key]), Shared).writes == 2
    ensures SyncAll(objects, [a, b], bindingName, Some(objects[b.key]), Shared).outcome == Fine
    ensures SyncAll(objects, [a, b], bindingName, Some(objects[b.key]), PerIteration).writes == 0
  {
    assert a.key in Owned(objects, bindingName) && b.key in Owned(objects, bindingName);
    var x, wanted := objects[b.key], [a, b];
    assert wanted[1..] == [b] && [b][1..] == [];
    TwoWrites(Start(objects, bindingName, Some(x)), a, b, bindingName, x);
    StepsRest(Start(objects, bindingName, Some(x)), wanted, bindingName);
    var quiet := Steps(Start(objects, bindingName, Some(x)), wanted, bindingName, PerIteration);
    assert IsWanted(wanted, wanted[0].key) && IsWanted(wanted, wanted[1].key);
    assert quiet.left == map[];
  }

  lemma TwoWrites(s: Run, a: Wanted, b: Wanted, bindingName: string, x: ClusterResource)
    requires s.left.Keys == {a.key, b.key} && a.key != b.key && s.last == Some(x) && s.outcome == Fine
    requires Sync.KeyOf(x) in s.objects && x.raw == b.raw && a.raw.Some? && b.raw.Some? && a.raw != b.raw
    ensures var t := Steps(s, [a, b], bindingName, Shared);
      t.outcome == Fine && t.writes == s.writes + 2 && t.left == map[]
  {
    assert [a, b][1..] == [b] && [b][1..] == [];
    var t := Step(s, a, bindingName, Shared);
    assert t.last == Some(x.(raw := a.raw)) && t.left.Keys == {b.key};
    var u := Step(t, b, bindingName, Shared);
    assert u.writes == s.writes + 2 && u.left.Keys == {};
    StepKeepsLast(s, a, bindingName, Shared);
    assert Steps(t, [b], bindingName, Shared) == Steps(u, [], bindingName, Shared) == u;
  }

  // ---------- when nothing is listed ----------

  lemma {:induction false} StepsUnlisted(s: Run, wanted: seq<Wanted>, bindingName: string)
    requires s.left == map[]
    ensures Steps(s, wanted, bindingName, Shared) == Steps(s, wanted, bindingName, PerIteration)
    ensures Steps(s, wanted, bindingName, Shared).left == map[]
    decreases |wanted|
  {
    if wanted != [] && s.outcome == Fine {
      StepsUnlisted(Step(s, wanted[0], bindingName, Shared), wanted[1..], bindingName);
    }
  }

  /** Without a listed resource the loop variable does not matter. */
  lemma NothingListed(objects: Objects, wanted: seq<Wanted>, bindingName: string)
    requires LastListed(objects, bindingName, None)
    ensures SyncAll(objects, wanted, bindingName, None, Shared)
      == SyncAll(objects, wanted, bindingName, None, PerIteration)
  {
    StepsUnlisted(Start(objects, bindingName, None), wanted, bindingName);
  }
}
