/** The status merge with one loop variable for the whole listing loop, as Go 1.16 has it: every address
    in the map leads to the last entry of the list. */
module SharedMerge {
  import opened ClusterResources
  import opened Slices
  import opened StatusMerge
  import opened Wrappers

  // ---------- when a whole merge goes right, read off the list and the resources ----------

  function LastOf(list: seq<ClusterStatus>): Option<ClusterStatus> {
    if list == [] then None else Some(list[|list| - 1])
  }

  /** The last entry of the list once these resources are merged, if nothing goes wrong: the initial one,
      or the entry of the last resource that was new or whose status the last entry did not have. */
  function LastEntry(list: seq<ClusterStatus>, crs: seq<ClusterResource>, bindingName: string): Option<ClusterStatus> {
    if crs == [] then LastOf(list)
    else
      var last, cr := LastEntry(list, crs[..|crs| - 1], bindingName), crs[|crs| - 1];
      if cr.status.phase == "" then last
      else if OwnEntry(list, ResourceKey(cr)).Some? && last.Some? && StatusEqual(cr.status, last.value) then last
      else Some(NewStatus(cr, bindingName))
  }

  /** The resource is new, or its entry is the last one, or both its entry and the last one agree already. */
  predicate StepIsRight(list: seq<ClusterStatus>, last: Option<ClusterStatus>, cr: ClusterResource) {
    var own := OwnEntry(list, ResourceKey(cr));
    || cr.status.phase == ""
    || own.None?
    || (last.Some? && (StatusKey(last.value) == ResourceKey(cr)
                       || (StatusEqual(cr.status, own.value) && StatusEqual(cr.status, last.value))))
  }

  predicate RunIsRight(list: seq<ClusterStatus>, crs: seq<ClusterResource>, bindingName: string) {
    crs == [] ||
    (RunIsRight(list, crs[..|crs| - 1], bindingName)
     && StepIsRight(list, LastEntry(list, crs[..|crs| - 1], bindingName), crs[|crs| - 1]))
  }

  // ---------- while it goes right ----------

  ghost predicate Right(list: seq<ClusterStatus>, crs: seq<ClusterResource>, bindingName: string,
                        mid: seq<ClusterStatus>) {
    AllMerged(list, crs, mid) && LastOf(mid) == LastEntry(list, crs, bindingName)
  }

  lemma NotReportedYet(crs: seq<ClusterResource>, cr: ClusterResource)
    requires DistinctKeys(crs + [cr]) && cr.status.phase != ""
    ensures !Reported(crs, ResourceKey(cr))
  {
    var all := crs + [cr];
    forall i | 0 <= i < |crs| && crs[i].status.phase != "" ensures ResourceKey(crs[i]) != ResourceKey(cr) {
      assert all[i] == crs[i] && all[|crs|] == cr;
    }
  }

  /** What is not merged yet still has its entry. */
  lemma OwnEntryKept(list: seq<ClusterStatus>, crs: seq<ClusterResource>, mid: seq<ClusterStatus>, key: string)
    requires Unique(list) && AllMerged(list, crs, mid) && !Reported(crs, key)
    ensures OwnEntry(mid, key) == OwnEntry(list, key)
  {
    OwnEntryIn(list, key);
    OwnEntryIn(mid, key);
    if OwnEntry(list, key).Some? {
      var e := OwnEntry(list, key).value;
      assert multiset(mid)[e] == multiset(list)[e] > 0;
      assert e in multiset(mid);
      KeyCountIn(mid, e);
      UniqueMeansOne(mid, e, OwnEntry(mid, key).value);
    } else if OwnEntry(mid, key).Some? {
      var e := OwnEntry(mid, key).value;
      assert multiset(list)[e] == multiset(mid)[e] > 0;
      assert e in multiset(list);
      KeyCountIn(list, e);
    }
  }

  lemma StepRight(list: seq<ClusterStatus>, crs: seq<ClusterResource>, bindingName: string, mid: seq<ClusterStatus>,
                  cr: ClusterResource)
    requires Unique(list) && DistinctKeys(crs + [cr]) && Right(list, crs, bindingName, mid) && cr.status.phase != ""
    requires StepIsRight(list, LastEntry(list, crs, bindingName), cr)
    ensures Right(list, crs + [cr], bindingName, MergeOne(mid, cr, bindingName, Shared).list)
  {
    NotReportedYet(crs, cr);
    OwnEntryKept(list, crs, mid, ResourceKey(cr));
    StepExact(mid, cr, bindingName, Shared);
    MergeNext(list, crs, mid, cr, MergeOne(mid, cr, bindingName, Shared).list);
    LastAfter(list, crs, bindingName, mid, cr);
  }

  lemma LastAfter(list: seq<ClusterStatus>, crs: seq<ClusterResource>, bindingName: string, mid: seq<ClusterStatus>,
                  cr: ClusterResource)
    requires LastOf(mid) == LastEntry(list, crs, bindingName)
      && OwnEntry(mid, ResourceKey(cr)) == OwnEntry(list, ResourceKey(cr))
    requires cr.status.phase != ""
    ensures LastOf(MergeOne(mid, cr, bindingName, Shared).list) == LastEntry(list, crs + [cr], bindingName)
  {
    assert (crs + [cr])[..|crs + [cr]| - 1] == crs;
    OwnEntryIn(mid, ResourceKey(cr));
  }

  // ---------- once it has gone wrong ----------

  /** Some merged resource has no entry, or several, or none that agrees. */
  ghost predicate Spoiled(crs: seq<ClusterResource>, list: seq<ClusterStatus>) {
    exists i :: 0 <= i < |crs| && crs[i].status.phase != "" && SpoiledFor(crs[i], list)
  }

  ghost predicate SpoiledFor(cr: ClusterResource, list: seq<ClusterStatus>) {
    KeyCount(list, ResourceKey(cr)) != 1 || !Agrees(list, cr)
  }

  lemma SpoiledMeansNotMerged(before: seq<ClusterStatus>, crs: seq<ClusterResource>, after: seq<ClusterStatus>)
    requires Spoiled(crs, after)
    ensures !AllMerged(before, crs, after)
  {
  }

  lemma SpoiledBy(crs: seq<ClusterResource>, cr: ClusterResource, list: seq<ClusterStatus>, i: nat)
    requires i <= |crs| && (crs + [cr])[i].status.phase != "" && SpoiledFor((crs + [cr])[i], list)
    ensures Spoiled(crs + [cr], list)
  {
  }

  /** A wrong step leaves a stale entry, or a second one. */
  lemma StepSpoils(list: seq<ClusterStatus>, crs: seq<ClusterResource>, bindingName: string, mid: seq<ClusterStatus>,
                   cr: ClusterResource)
    requires Unique(list) && DistinctKeys(crs + [cr]) && Right(list, crs, bindingName, mid)
    requires !StepIsRight(list, LastEntry(list, crs, bindingName), cr)
    ensures SpoiledFor(cr, MergeOne(mid, cr, bindingName, Shared).list)
  {
    NotReportedYet(crs, cr);
    OwnEntryKept(list, crs, mid, ResourceKey(cr));
    OwnEntryIn(mid, ResourceKey(cr));
    var own, last := OwnEntry(mid, ResourceKey(cr)).value, mid[|mid| - 1];
    if StatusEqual(cr.status, last) {
      StaleSpoils(mid, cr, own);
    } else {
      ReplacedCounts(mid, cr, bindingName);
    }
  }

  lemma StaleSpoils(list: seq<ClusterStatus>, cr: ClusterResource, own: ClusterStatus)
    requires Unique(list) && own in list && StatusKey(own) == ResourceKey(cr) && !StatusEqual(cr.status, own)
    ensures SpoiledFor(cr, list)
  {
    forall i | 0 <= i < |list| && StatusKey(list[i]) == ResourceKey(cr) ensures !StatusEqual(cr.status, list[i]) {
      UniqueMeansOne(list, own, list[i]);
    }
  }

  /** The last entry makes way for the resource's new one. */
  lemma ReplacedCounts(list: seq<ClusterStatus>, cr: ClusterResource, bindingName: string)
    requires list != []
    ensures var last := list[|list| - 1];
      var after := RemovedAt(list, IndexOf(list, last)) + [NewStatus(cr, bindingName)];
      && (forall key :: KeyCount(after, key) == KeyCount(list, key)
            - (if StatusKey(last) == key then 1 else 0) + (if key == ResourceKey(cr) then 1 else 0))
      && (forall other :: Agrees(after, other) && ResourceKey(other) != ResourceKey(cr) ==> Agrees(list, other))
  {
    var last := list[|list| - 1];
    var index := IndexOf(list, last);
    RemovedCounts(list, index);
    RemovedAtDropsOne(list, index);
    AppendedNew(RemovedAt(list, index), cr, bindingName);
    var after := RemovedAt(list, index) + [NewStatus(cr, bindingName)];
    forall other | Agrees(after, other) && ResourceKey(other) != ResourceKey(cr) ensures Agrees(list, other) {
      var i :| 0 <= i < |after| && StatusKey(after[i]) == ResourceKey(other) && StatusEqual(other.status, after[i]);
      assert after[i] in multiset(after);
      assert after[i] in multiset(list);
      var j :| 0 <= j < |list| && list[j] == after[i];
    }
  }

  /** Later steps do not repair it: each key is merged once. */
  lemma SpoiledStays(crs: seq<ClusterResource>, cr: ClusterResource, bindingName: string, list: seq<ClusterStatus>)
    requires DistinctKeys(crs + [cr]) && Spoiled(crs, list)
    ensures Spoiled(crs + [cr], MergeOne(list, cr, bindingName, Shared).list)
  {
    var i :| 0 <= i < |crs| && crs[i].status.phase != "" && SpoiledFor(crs[i], list);
    var after := MergeOne(list, cr, bindingName, Shared).list;
    assert (crs + [cr])[i] == crs[i] && (crs + [cr])[|crs|] == cr;
    if cr.status.phase == "" {
      SpoiledBy(crs, cr, after, i);
    } else {
      NotReportedYet(crs, cr);
      OwnEntryIn(list, ResourceKey(cr));
      if SpoiledFor(crs[i], after) {
        SpoiledBy(crs, cr, after, i);
      } else {
        RepairedSpoils(crs[i], cr, bindingName, list);
        SpoiledBy(crs, cr, after, |crs|);
      }
    }
  }

  /** What repairs one resource's entry spoils another's. */
  lemma RepairedSpoils(other: ClusterResource, cr: ClusterResource, bindingName: string, list: seq<ClusterStatus>)
    requires ResourceKey(other) != ResourceKey(cr) && cr.status.phase != "" && SpoiledFor(other, list)
    requires !SpoiledFor(other, MergeOne(list, cr, bindingName, Shared).list)
    ensures SpoiledFor(cr, MergeOne(list, cr, bindingName, Shared).list)
  {
    OwnEntryIn(list, ResourceKey(cr));
    if OwnEntry(list, ResourceKey(cr)).None? {
      NewKeepsSpoiled(other, cr, bindingName, list);
    } else {
      ReplacedCounts(list, cr, bindingName);
    }
  }

  lemma NewKeepsSpoiled(other: ClusterResource, cr: ClusterResource, bindingName: string, list: seq<ClusterStatus>)
    requires ResourceKey(other) != ResourceKey(cr)
    ensures SpoiledFor(other, list + [NewStatus(cr, bindingName)]) <==> SpoiledFor(other, list)
  {
    AppendedNew(list, cr, bindingName);
    var after := list + [NewStatus(cr, bindingName)];
    if Agrees(list, other) {
      var i :| 0 <= i < |list| && StatusKey(list[i]) == ResourceKey(other) && StatusEqual(other.status, list[i]);
      assert after[i] == list[i];
    }
  }

  // ---------- main results ----------

  lemma {:induction false} SharedRun(list: seq<ClusterStatus>, crs: seq<ClusterResource>, bindingName: string)
    requires Unique(list) && DistinctKeys(crs)
    ensures var after := MergeAll(list, crs, bindingName, Shared).list;
      if RunIsRight(list, crs, bindingName) then Right(list, crs, bindingName, after) else Spoiled(crs, after)
  {
    if crs != [] {
      var init, cr := crs[..|crs| - 1], crs[|crs| - 1];
      assert crs == init + [cr];
      assert forall i, j :: 0 <= i < j < |init| ==> init[i] == crs[i] && init[j] == crs[j];
      SharedRun(list, init, bindingName);
      SharedNext(list, init, cr, bindingName, MergeAll(list, init, bindingName, Shared).list);
    }
  }

  lemma SharedNext(list: seq<ClusterStatus>, init: seq<ClusterResource>, cr: ClusterResource, bindingName: string,
                   mid: seq<ClusterStatus>)
    requires Unique(list) && DistinctKeys(init + [cr])
    requires if RunIsRight(list, init, bindingName) then Right(list, init, bindingName, mid) else Spoiled(init, mid)
    ensures var after := MergeOne(mid, cr, bindingName, Shared).list;
      if RunIsRight(list, init + [cr], bindingName) then Right(list, init + [cr], bindingName, after)
      else Spoiled(init + [cr], after)
  {
    assert (init + [cr])[..|init + [cr]| - 1] == init;
    var after := MergeOne(mid, cr, bindingName, Shared).list;
    if !RunIsRight(list, init, bindingName) {
      SpoiledStays(init, cr, bindingName, mid);
    } else if !StepIsRight(list, LastEntry(list, init, bindingName), cr) {
      StepSpoils(list, init, bindingName, mid, cr);
      SpoiledBy(init, cr, after, |init|);
    } else if cr.status.phase == "" {
      MergeNext(list, init, mid, cr, after);
    } else {
      StepRight(list, init, bindingName, mid, cr);
    }
  }

  /** A whole merge with one loop variable does what it should if and only if every reporting resource, in
      turn, is new, or has the last entry of the list at that time, or agrees with both. */
  lemma SharedMergeExact(list: seq<ClusterStatus>, crs: seq<ClusterResource>, bindingName: string)
    requires Unique(list) && DistinctKeys(crs)
    ensures AllMerged(list, crs, MergeAll(list, crs, bindingName, Shared).list) <==> RunIsRight(list, crs, bindingName)
  {
    SharedRun(list, crs, bindingName);
    if !RunIsRight(list, crs, bindingName) {
      SpoiledMeansNotMerged(list, crs, MergeAll(list, crs, bindingName, Shared).list);
    }
  }

  /** Every reporting resource has an entry, and the last entry of the list agrees with each of them. */
  predicate AllLikeLast(list: seq<ClusterStatus>, crs: seq<ClusterResource>) {
    forall i :: 0 <= i < |crs| && crs[i].status.phase != "" ==> LikeLast(list, crs[i])
  }

  /** A merge with one loop variable writes nothing if and only if the last entry agrees with every
      resource: a second merge of different statuses always writes. */
  lemma {:induction false} SharedQuietExact(list: seq<ClusterStatus>, crs: seq<ClusterResource>, bindingName: string)
    ensures var r := MergeAll(list, crs, bindingName, Shared);
      (!r.changed <==> AllLikeLast(list, crs)) && (!r.changed ==> r.list == list)
  {
    hide LikeLast, MergeOne;
    if crs != [] {
      var init, cr := crs[..|crs| - 1], crs[|crs| - 1];
      assert crs == init + [cr];
      SharedQuietExact(list, init, bindingName);
      QuietStep(list, cr, bindingName);
      LikeLastSnoc(list, init, cr);
    }
  }

  predicate LikeLast(list: seq<ClusterStatus>, cr: ClusterResource) {
    OwnEntry(list, ResourceKey(cr)).Some? && list != [] && StatusEqual(cr.status, list[|list| - 1])
  }

  lemma QuietStep(list: seq<ClusterStatus>, cr: ClusterResource, bindingName: string)
    ensures var step := MergeOne(list, cr, bindingName, Shared);
      (!step.changed <==> cr.status.phase == "" || LikeLast(list, cr)) && (!step.changed ==> step.list == list)
  {
    OwnEntryIn(list, ResourceKey(cr));
  }

  lemma LikeLastSnoc(list: seq<ClusterStatus>, init: seq<ClusterResource>, cr: ClusterResource)
    ensures AllLikeLast(list, init + [cr])
      <==> AllLikeLast(list, init) && (cr.status.phase == "" || LikeLast(list, cr))
  {
    var all := init + [cr];
    assert all[|init|] == cr && forall i :: 0 <= i < |init| ==> all[i] == init[i];
  }
}
