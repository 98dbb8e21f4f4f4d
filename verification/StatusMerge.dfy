/** Merging the status of cluster resources into the status list of their binding. */
module StatusMerge {
  import opened Names
  import opened Wrappers
  import opened ClusterResources
  import opened Slices

  datatype ClusterStatus = ClusterStatus(name: string, resource: string, generation: int, phase: string,
    message: string, binding: string)

  /** bindingClusterStatusMapKey. */
  function StatusKey(item: ClusterStatus): string {
    item.name + "." + item.resource
  }

  function ResourceKey(cr: ClusterResource): string {
    ClusterName(cr.namespace) + "." + cr.name
  }

  predicate StatusEqual(status: Status, item: ClusterStatus) {
    status.phase == item.phase && status.message == item.message && status.generation == item.generation
  }

  function NewStatus(cr: ClusterResource, bindingName: string): ClusterStatus {
    ClusterStatus(ClusterName(cr.namespace), cr.name, cr.status.generation, cr.status.phase, cr.status.message,
      bindingName)
  }

  /** The last item with the key. */
  function OwnEntry(list: seq<ClusterStatus>, key: string): Option<ClusterStatus> {
    if list == [] then None
    else if StatusKey(list[|list| - 1]) == key then Some(list[|list| - 1])
    else OwnEntry(list[..|list| - 1], key)
  }

  /** What the map of bindingClusterStatusMap holds under a key: the key's own entry or, when the
      loop variable is shared, the last item of the whole list. */
  function Lookup(list: seq<ClusterStatus>, key: string, loopVar: LoopVar): Option<ClusterStatus> {
    var own := OwnEntry(list, key);
    if own.Some? && loopVar.Shared? then Some(list[|list| - 1]) else own
  }

  function IndexOf(list: seq<ClusterStatus>, item: ClusterStatus): (r: nat)
    requires item in list
    ensures r < |list| && list[r] == item && item !in list[..r]
  {
    if list[0] == item then 0
    else
      assert list == [list[0]] + list[1..];
      var r := IndexOf(list[1..], item) + 1;
      assert list[..r] == [list[0]] + list[1..][..r - 1];
      r
  }

  datatype Merged = Merged(list: seq<ClusterStatus>, changed: bool)

  lemma {:induction false} OwnEntryIn(list: seq<ClusterStatus>, key: string)
    ensures var r := OwnEntry(list, key);
      && (r.Some? <==> KeyCount(list, key) > 0)
      && (r.Some? ==> r.value in list && StatusKey(r.value) == key)
  {
    if list != [] {
      OwnEntryIn(list[..|list| - 1], key);
      KeyCountSnoc(list, key);
    }
  }

  /** The step of updateBindingStatus for one cluster resource. */
  function MergeOne(list: seq<ClusterStatus>, cr: ClusterResource, bindingName: string, loopVar: LoopVar): Merged {
    if cr.status.phase == "" then Merged(list, false)
    else
      OwnEntryIn(list, ResourceKey(cr));
      match Lookup(list, ResourceKey(cr), loopVar)
      case None => Merged(list + [NewStatus(cr, bindingName)], true)
      case Some(item) =>
        if StatusEqual(cr.status, item) then Merged(list, false)
        else Merged(RemovedAt(list, IndexOf(list, item)) + [NewStatus(cr, bindingName)], true)
  }

  function MergeAll(list: seq<ClusterStatus>, crs: seq<ClusterResource>, bindingName: string,
                    loopVar: LoopVar): Merged {
    if crs == [] then Merged(list, false)
    else
      var before := MergeAll(list, crs[..|crs| - 1], bindingName, loopVar);
      var step := MergeOne(before.list, crs[|crs| - 1], bindingName, loopVar);
      Merged(step.list, before.changed || step.changed)
  }

  // ---------- counting entries ----------

  function KeyCount(list: seq<ClusterStatus>, key: string): nat {
    if list == [] then 0 else (if StatusKey(list[0]) == key then 1 else 0) + KeyCount(list[1..], key)
  }

  lemma {:induction false} KeyCountAppend(a: seq<ClusterStatus>, b: seq<ClusterStatus>, key: string)
    ensures KeyCount(a + b, key) == KeyCount(a, key) + KeyCount(b, key)
  {
    if a == [] {
      assert a + b == b;
    } else {
      assert (a + b)[1..] == a[1..] + b;
      KeyCountAppend(a[1..], b, key);
    }
  }

  lemma KeyCountSnoc(list: seq<ClusterStatus>, key: string)
    requires list != []
    ensures KeyCount(list, key)
      == KeyCount(list[..|list| - 1], key) + if StatusKey(list[|list| - 1]) == key then 1 else 0
  {
    assert list == list[..|list| - 1] + [list[|list| - 1]];
    KeyCountAppend(list[..|list| - 1], [list[|list| - 1]], key);
  }

  lemma KeyCountRemoved(list: seq<ClusterStatus>, index: nat, key: string)
    requires index < |list|
    ensures KeyCount(RemovedAt(list, index), key)
      == KeyCount(list, key) - if StatusKey(list[index]) == key then 1 else 0
  {
    if index == 1 {
      assert list == [list[0]] + ([list[1]] + list[2..]);
      KeyCountAppend([list[0]], [list[1]] + list[2..], key);
      KeyCountAppend([list[1]], list[2..], key);
      KeyCountAppend(list[2..], [list[0]], key);
    } else {
      assert list == list[..index] + ([list[index]] + list[index + 1..]);
      KeyCountAppend(list[..index], [list[index]] + list[index + 1..], key);
      KeyCountAppend([list[index]], list[index + 1..], key);
      KeyCountAppend(list[..index], list[index + 1..], key);
      assert index == 0 ==> list[..index] + list[index + 1..] == list[1..];
    }
  }

  lemma {:induction false} KeyCountIn(list: seq<ClusterStatus>, item: ClusterStatus)
    requires item in list
    ensures KeyCount(list, StatusKey(item)) > 0
  {
    if list[0] != item {
      assert list == [list[0]] + list[1..];
      KeyCountIn(list[1..], item);
    }
  }

  /** No two entries under one key. */
  ghost predicate Unique(list: seq<ClusterStatus>) {
    forall key: string :: KeyCount(list, key) <= 1
  }

  lemma {:induction false} UniqueMeansOne(list: seq<ClusterStatus>, a: ClusterStatus, b: ClusterStatus)
    requires KeyCount(list, StatusKey(a)) <= 1 && a in list && b in list && StatusKey(a) == StatusKey(b)
    ensures a == b
  {
    assert list == [list[0]] + list[1..];
    if list[0] == a {
      if b in list[1..] {
        KeyCountIn(list[1..], b);
      }
    } else if list[0] == b {
      KeyCountIn(list[1..], a);
    } else {
      UniqueMeansOne(list[1..], a, b);
    }
  }

  // ---------- what a merge is to do ----------

  /** Some entry under the resource's key agrees with its status. */
  predicate Agrees(list: seq<ClusterStatus>, cr: ClusterResource) {
    exists i :: 0 <= i < |list| && StatusKey(list[i]) == ResourceKey(cr) && StatusEqual(cr.status, list[i])
  }

  /** Exactly one entry under the key, agreeing; entries under other keys are the same, counting copies. */
  ghost predicate MergedRight(before: seq<ClusterStatus>, cr: ClusterResource, after: seq<ClusterStatus>) {
    && KeyCount(after, ResourceKey(cr)) == 1 && Agrees(after, cr)
    && (forall item: ClusterStatus ::
      StatusKey(item) != ResourceKey(cr) ==> multiset(after)[item] == multiset(before)[item])
    && (forall key: string :: key != ResourceKey(cr) ==> KeyCount(after, key) == KeyCount(before, key))
  }

  lemma AppendedNew(list: seq<ClusterStatus>, cr: ClusterResource, bindingName: string)
    ensures var t := list + [NewStatus(cr, bindingName)];
      && Agrees(t, cr)
      && (forall key :: KeyCount(t, key) == KeyCount(list, key) + if key == ResourceKey(cr) then 1 else 0)
      && multiset(t) == multiset(list) + multiset{NewStatus(cr, bindingName)}
  {
    var n := NewStatus(cr, bindingName);
    assert (list + [n])[|list|] == n;
    forall key ensures KeyCount(list + [n], key) == KeyCount(list, key) + if key == ResourceKey(cr) then 1 else 0 {
      KeyCountAppend(list, [n], key);
    }
  }

  /** Replacing an entry of a unique list: right exactly when it was the resource's own entry. */
  lemma ReplacedEntry(list: seq<ClusterStatus>, cr: ClusterResource, bindingName: string, item: ClusterStatus)
    requires Unique(list) && item in list && KeyCount(list, ResourceKey(cr)) == 1
    ensures MergedRight(list, cr, RemovedAt(list, IndexOf(list, item)) + [NewStatus(cr, bindingName)])
      <==> StatusKey(item) == ResourceKey(cr)
  {
    hide RemovedAt, IndexOf, StatusEqual;
    var after := RemovedAt(list, IndexOf(list, item)) + [NewStatus(cr, bindingName)];
    ReplacedCounts(list, cr, bindingName, item);
    if StatusKey(item) != ResourceKey(cr) {
      assert KeyCount(after, ResourceKey(cr)) == 2;
    }
  }

  lemma ReplacedCounts(list: seq<ClusterStatus>, cr: ClusterResource, bindingName: string, item: ClusterStatus)
    requires item in list
    ensures var after := RemovedAt(list, IndexOf(list, item)) + [NewStatus(cr, bindingName)];
      && Agrees(after, cr)
      && multiset(after) == multiset(list) - multiset{item} + multiset{NewStatus(cr, bindingName)}
      && forall key :: KeyCount(after, key)
           == KeyCount(list, key) - (if StatusKey(item) == key then 1 else 0) + if ResourceKey(cr) == key then 1 else 0
  {
    var index := IndexOf(list, item);
    RemovedAtDropsOne(list, index);
    AppendedNew(RemovedAt(list, index), cr, bindingName);
    RemovedCounts(list, index);
  }

  lemma RemovedCounts(list: seq<ClusterStatus>, index: nat)
    requires index < |list|
    ensures forall key ::
      KeyCount(RemovedAt(list, index), key) == KeyCount(list, key) - if StatusKey(list[index]) == key then 1 else 0
  {
    forall key
      ensures KeyCount(RemovedAt(list, index), key)
        == KeyCount(list, key) - if StatusKey(list[index]) == key then 1 else 0
    {
      KeyCountRemoved(list, index, key);
    }
  }

  /** When a step does the right thing. With one loop variable it goes wrong if the resource's entry
      is not the last one, except when both that entry and the last one happen to agree already. */
  lemma StepExact(list: seq<ClusterStatus>, cr: ClusterResource, bindingName: string, loopVar: LoopVar)
    requires Unique(list) && cr.status.phase != ""
    ensures MergedRight(list, cr, MergeOne(list, cr, bindingName, loopVar).list) <==>
      var own := OwnEntry(list, ResourceKey(cr));
      || loopVar.PerIteration?
      || own.None?
      || StatusKey(list[|list| - 1]) == ResourceKey(cr)
      || (StatusEqual(cr.status, own.value) && StatusEqual(cr.status, list[|list| - 1]))
  {
    OwnEntryIn(list, ResourceKey(cr));
    match OwnEntry(list, ResourceKey(cr))
    case None => StepAppended(list, cr, bindingName);
    case Some(own) => StepFound(list, cr, bindingName, loopVar, own);
  }

  lemma StepAppended(list: seq<ClusterStatus>, cr: ClusterResource, bindingName: string)
    requires KeyCount(list, ResourceKey(cr)) == 0
    ensures MergedRight(list, cr, list + [NewStatus(cr, bindingName)])
  {
    AppendedNew(list, cr, bindingName);
  }

  lemma StepFound(list: seq<ClusterStatus>, cr: ClusterResource, bindingName: string, loopVar: LoopVar,
                  own: ClusterStatus)
    requires Unique(list) && cr.status.phase != "" && own in list && StatusKey(own) == ResourceKey(cr)
    requires OwnEntry(list, ResourceKey(cr)) == Some(own)
    ensures MergedRight(list, cr, MergeOne(list, cr, bindingName, loopVar).list) <==>
      || loopVar.PerIteration?
      || StatusKey(list[|list| - 1]) == ResourceKey(cr)
      || (StatusEqual(cr.status, own) && StatusEqual(cr.status, list[|list| - 1]))
  {
    var item := if loopVar.Shared? then list[|list| - 1] else own;
    KeyCountIn(list, own);
    if StatusEqual(cr.status, item) {
      UnchangedRight(list, cr, own);
    } else {
      ReplacedEntry(list, cr, bindingName, item);
    }
    if StatusKey(item) == ResourceKey(cr) {
      UniqueMeansOne(list, own, item);
    }
  }

  /** Leaving the list alone is right exactly when the resource's own entry agrees. */
  lemma UnchangedRight(list: seq<ClusterStatus>, cr: ClusterResource, own: ClusterStatus)
    requires Unique(list) && own in list && StatusKey(own) == ResourceKey(cr)
    ensures MergedRight(list, cr, list) <==> StatusEqual(cr.status, own)
  {
    KeyCountIn(list, own);
    if i :| 0 <= i < |list| && StatusKey(list[i]) == ResourceKey(cr) && StatusEqual(cr.status, list[i]) {
      UniqueMeansOne(list, own, list[i]);
    }
  }

  // ---------- whole runs, with a variable per iteration ----------

  /** Cluster resources that report a status do so under different keys. */
  predicate DistinctKeys(crs: seq<ClusterResource>) {
    forall i, j :: 0 <= i < j < |crs| && crs[i].status.phase != "" && crs[j].status.phase != "" ==>
      ResourceKey(crs[i]) != ResourceKey(crs[j])
  }

  predicate Reported(crs: seq<ClusterResource>, key: string) {
    exists i :: 0 <= i < |crs| && crs[i].status.phase != "" && ResourceKey(crs[i]) == key
  }

  /** The whole merge did what it should: one agreeing entry for each reporting resource, everything
      under other keys as before, keys unique. */
  ghost predicate AllMerged(before: seq<ClusterStatus>, crs: seq<ClusterResource>, after: seq<ClusterStatus>) {
    && Unique(after)
    && (forall i :: 0 <= i < |crs| && crs[i].status.phase != "" ==>
      KeyCount(after, ResourceKey(crs[i])) == 1 && Agrees(after, crs[i]))
    && (forall item: ClusterStatus ::
      !Reported(crs, StatusKey(item)) ==> multiset(after)[item] == multiset(before)[item])
  }

  lemma AgreesKept(before: seq<ClusterStatus>, cr: ClusterResource, after: seq<ClusterStatus>, other: ClusterResource)
    requires MergedRight(before, cr, after) && Agrees(before, other) && ResourceKey(other) != ResourceKey(cr)
    ensures Agrees(after, other)
  {
    var i :| 0 <= i < |before| && StatusKey(before[i]) == ResourceKey(other) && StatusEqual(other.status, before[i]);
    assert multiset(before)[before[i]] > 0;
    assert before[i] in multiset(after);
    var j :| 0 <= j < |after| && after[j] == before[i];
  }

  lemma MergeNext(before: seq<ClusterStatus>, crs: seq<ClusterResource>, mid: seq<ClusterStatus>, cr: ClusterResource,
                  after: seq<ClusterStatus>)
    requires AllMerged(before, crs, mid) && DistinctKeys(crs + [cr])
    requires if cr.status.phase == "" then after == mid else MergedRight(mid, cr, after)
    ensures AllMerged(before, crs + [cr], after)
  {
    var all := crs + [cr];
    forall key ensures KeyCount(after, key) <= 1 {
    }
    forall i | 0 <= i < |all| && all[i].status.phase != ""
      ensures KeyCount(after, ResourceKey(all[i])) == 1 && Agrees(after, all[i])
    {
      if i < |crs| && cr.status.phase != "" {
        assert all[i] == crs[i] && all[|crs|] == cr;
        AgreesKept(mid, cr, after, crs[i]);
      }
    }
    forall item: ClusterStatus | !Reported(all, StatusKey(item))
      ensures multiset(after)[item] == multiset(before)[item]
    {
      assert all[|crs|] == cr && forall i :: 0 <= i < |crs| ==> all[i] == crs[i];
    }
  }

  /** With a variable per iteration the merge is right on every list with unique keys. */
  lemma {:induction false} MergeIsRight(list: seq<ClusterStatus>, crs: seq<ClusterResource>, bindingName: string)
    requires Unique(list) && DistinctKeys(crs)
    ensures AllMerged(list, crs, MergeAll(list, crs, bindingName, PerIteration).list)
  {
    if crs != [] {
      MergeIsRight(list, crs[..|crs| - 1], bindingName);
      assert crs[..|crs| - 1] + [crs[|crs| - 1]] == crs;
      MergeLast(list, crs[..|crs| - 1], crs[|crs| - 1],
        MergeAll(list, crs[..|crs| - 1], bindingName, PerIteration).list, bindingName);
    }
  }

  lemma MergeLast(list: seq<ClusterStatus>, init: seq<ClusterResource>, cr: ClusterResource, mid: seq<ClusterStatus>,
                  bindingName: string)
    requires AllMerged(list, init, mid) && DistinctKeys(init + [cr])
    ensures AllMerged(list, init + [cr], MergeOne(mid, cr, bindingName, PerIteration).list)
  {
    if cr.status.phase != "" {
      StepExact(mid, cr, bindingName, PerIteration);
    }
    MergeNext(list, init, mid, cr, MergeOne(mid, cr, bindingName, PerIteration).list);
  }

  /** On a merged list another run changes nothing and writes nothing. */
  lemma {:induction false} MergeIsIdempotent(list: seq<ClusterStatus>, crs: seq<ClusterResource>, bindingName: string)
    requires Unique(list) && forall i :: 0 <= i < |crs| && crs[i].status.phase != "" ==> Agrees(list, crs[i])
    ensures MergeAll(list, crs, bindingName, PerIteration) == Merged(list, false)
  {
    if crs != [] {
      MergeIsIdempotent(list, crs[..|crs| - 1], bindingName);
      var cr := crs[|crs| - 1];
      if cr.status.phase != "" {
        var i :| 0 <= i < |list| && StatusKey(list[i]) == ResourceKey(cr) && StatusEqual(cr.status, list[i]);
        KeyCountIn(list, list[i]);
        OwnEntryIn(list, ResourceKey(cr));
        UniqueMeansOne(list, list[i], OwnEntry(list, ResourceKey(cr)).value);
      }
    }
  }

  lemma MergeTwice(list: seq<ClusterStatus>, crs: seq<ClusterResource>, bindingName: string)
    requires Unique(list) && DistinctKeys(crs)
    ensures var once := MergeAll(list, crs, bindingName, PerIteration).list;
      AllMerged(list, crs, once) && MergeAll(once, crs, bindingName, PerIteration) == Merged(once, false)
  {
    MergeIsRight(list, crs, bindingName);
    MergeIsIdempotent(MergeAll(list, crs, bindingName, PerIteration).list, crs, bindingName);
  }

  /** Where an entry comes from: it was there, or it is the report of one of the resources for this binding. */
  predicate Reports(item: ClusterStatus, cr: ClusterResource, bindingName: string) {
    && item.name == ClusterName(cr.namespace) && item.resource == cr.name && item.binding == bindingName
    && item.phase == cr.status.phase != "" && item.message == cr.status.message
    && item.generation == cr.status.generation
  }

  predicate FromReport(item: ClusterStatus, crs: seq<ClusterResource>, bindingName: string) {
    exists i :: 0 <= i < |crs| && Reports(item, crs[i], bindingName)
  }

  /** In either reading of the loop variable nothing is made up. */
  lemma {:induction false} EntriesAreReports(list: seq<ClusterStatus>, crs: seq<ClusterResource>, bindingName: string,
                                             loopVar: LoopVar)
    ensures forall item :: item in MergeAll(list, crs, bindingName, loopVar).list ==>
      item in list || FromReport(item, crs, bindingName)
    decreases |crs|
  {
    if crs != [] {
      var init, cr := crs[..|crs| - 1], crs[|crs| - 1];
      var mid := MergeAll(list, init, bindingName, loopVar).list;
      EntriesAreReports(list, init, bindingName, loopVar);
      forall item | item in MergeOne(mid, cr, bindingName, loopVar).list
        ensures item in list || FromReport(item, crs, bindingName)
      {
        EntryOfOne(mid, cr, bindingName, loopVar, item);
        if item in mid {
          if i :| 0 <= i < |init| && Reports(item, init[i], bindingName) {
            assert crs[i] == init[i];
          }
        } else {
          assert Reports(item, crs[|crs| - 1], bindingName);
        }
      }
    }
  }

  lemma EntryOfOne(list: seq<ClusterStatus>, cr: ClusterResource, bindingName: string, loopVar: LoopVar,
                   item: ClusterStatus)
    requires item in MergeOne(list, cr, bindingName, loopVar).list
    ensures item in list || Reports(item, cr, bindingName)
  {
    OwnEntryIn(list, ResourceKey(cr));
    if cr.status.phase != "" && Lookup(list, ResourceKey(cr), loopVar).Some? {
      var index := IndexOf(list, Lookup(list, ResourceKey(cr), loopVar).value);
      assert forall i :: i in RemovedAt(list, index) ==> i in list;
    }
  }

  /** Over cluster names without a dot a key stands for one cluster and one of its resources. */
  lemma KeyTells(item: ClusterStatus, cr: ClusterResource)
    requires DotFree(item.name) && DotFree(ClusterName(cr.namespace))
    ensures StatusKey(item) == ResourceKey(cr) <==> item.name == ClusterName(cr.namespace) && item.resource == cr.name
  {
    MapKeyInjective(item.name, item.resource, ClusterName(cr.namespace), cr.name);
  }

  /** The entry of a cluster and a resource of it. */
  predicate EntryAt(list: seq<ClusterStatus>, cr: ClusterResource, n: int) {
    0 <= n < |list| && list[n].name == ClusterName(cr.namespace) && list[n].resource == cr.name
  }

  /** There is one, it is the only one, and it has the resource's status. */
  ghost predicate ListedOnce(list: seq<ClusterStatus>, cr: ClusterResource) {
    exists n :: EntryAt(list, cr, n) && list[n].phase == cr.status.phase && list[n].message == cr.status.message
      && list[n].generation == cr.status.generation && forall m :: EntryAt(list, cr, m) ==> list[m] == list[n]
  }

  lemma AgreeingIsListed(list: seq<ClusterStatus>, cr: ClusterResource)
    requires Unique(list) && Agrees(list, cr) && DotFree(ClusterName(cr.namespace))
    requires forall n :: 0 <= n < |list| ==> DotFree(list[n].name)
    ensures ListedOnce(list, cr)
  {
    var n :| 0 <= n < |list| && StatusKey(list[n]) == ResourceKey(cr) && StatusEqual(cr.status, list[n]);
    KeyTells(list[n], cr);
    forall m | EntryAt(list, cr, m) ensures list[m] == list[n] {
      KeyTells(list[m], cr);
      UniqueMeansOne(list, list[m], list[n]);
    }
  }

  /** Every reporting resource ends with one entry under the names of its cluster and itself, with its own phase,
      message and generation. */
  lemma ReportsAreListed(list: seq<ClusterStatus>, crs: seq<ClusterResource>, bindingName: string, i: nat)
    requires Unique(list) && DistinctKeys(crs) && i < |crs| && crs[i].status.phase != ""
    requires (forall n :: 0 <= n < |list| ==> DotFree(list[n].name))
      && forall k :: 0 <= k < |crs| ==> DotFree(ClusterName(crs[k].namespace))
    ensures ListedOnce(MergeAll(list, crs, bindingName, PerIteration).list, crs[i])
  {
    hide MergeAll, KeyCount, Agrees, ListedOnce, DistinctKeys;
    MergeIsRight(list, crs, bindingName);
    EntriesAreReports(list, crs, bindingName, PerIteration);
    var t := MergeAll(list, crs, bindingName, PerIteration).list;
    forall n | 0 <= n < |t| ensures DotFree(t[n].name) {
      EntryIsDotFree(list, crs, bindingName, t[n]);
    }
    AgreeingIsListed(t, crs[i]);
  }

  lemma EntryIsDotFree(list: seq<ClusterStatus>, crs: seq<ClusterResource>, bindingName: string, item: ClusterStatus)
    requires item in list || FromReport(item, crs, bindingName)
    requires (forall n :: 0 <= n < |list| ==> DotFree(list[n].name))
      && forall k :: 0 <= k < |crs| ==> DotFree(ClusterName(crs[k].namespace))
    ensures DotFree(item.name)
  {
    if item in list {
      var n :| 0 <= n < |list| && list[n] == item;
    }
  }

  /** With one loop variable two clusters are enough to go wrong: a new phase of the first removes
      the entry of the second and leaves the first one twice. */
  lemma SharedLosesOther(a: ClusterStatus, b: ClusterStatus, cr: ClusterResource, bindingName: string)
    requires StatusKey(a) == ResourceKey(cr) != StatusKey(b) && cr.status.phase != "" && !StatusEqual(cr.status, b)
    ensures MergeAll([a, b], [cr], bindingName, Shared).list == [a, NewStatus(cr, bindingName)]
    ensures KeyCount(MergeAll([a, b], [cr], bindingName, Shared).list, ResourceKey(cr)) == 2
    ensures b !in MergeAll([a, b], [cr], bindingName, Shared).list
  {
    var list := [a, b];
    assert list[..1] == [a] && [cr][..0] == [];
    assert OwnEntry([a], ResourceKey(cr)) == Some(a);
    assert OwnEntry(list, ResourceKey(cr)) == Some(a) && IndexOf(list, b) == 1;
    assert RemovedAt(list, 1) == [a];
    var after := MergeOne(list, cr, bindingName, Shared).list;
    assert after == [a, NewStatus(cr, bindingName)];
    assert after[1..] == [NewStatus(cr, bindingName)] && KeyCount(after[1..], ResourceKey(cr)) == 1;
  }

  // ---------- the loops ----------

  /** What `item` in `for _, item := range list` denotes: a variable whose address the map keeps. */
  class ItemVar {
    var value: ClusterStatus

    constructor (value: ClusterStatus)
      ensures this.value == value
    {
      this.value := value;
    }
  }

  /** bindingClusterStatusMap: addresses of the loop variable, one or one per iteration. */
  method BindingClusterStatusMap(list: seq<ClusterStatus>, loopVar: LoopVar) returns (statusMap: map<string, ItemVar>)
    ensures forall key :: key in statusMap <==> OwnEntry(list, key).Some?
    ensures forall key :: key in statusMap ==>
      fresh(statusMap[key]) && Lookup(list, key, loopVar) == Some(statusMap[key].value)
  {
    statusMap := map[];
    if list == [] {
      return;
    }
    var item := new ItemVar(list[0]);
    for i := 0 to |list|
      invariant fresh(item) && (i > 0 ==> item.value == list[i - 1])
      invariant forall key :: key in statusMap <==> OwnEntry(list[..i], key).Some?
      invariant forall key :: key in statusMap ==> fresh(statusMap[key])
      invariant loopVar.Shared? ==> forall key :: key in statusMap ==> statusMap[key] == item
      invariant loopVar.PerIteration? ==>
        forall key :: key in statusMap ==> OwnEntry(list[..i], key) == Some(statusMap[key].value)
    {
      assert list[..i + 1][..i] == list[..i];
      if loopVar.PerIteration? {
        item := new ItemVar(list[i]);
      } else {
        item.value := list[i];
      }
      statusMap := statusMap[StatusKey(list[i]) := item];
    }
    assert list[..|list|] == list;
  }

  class BindingStatus {
    const name: string
    var clusterStatus: seq<ClusterStatus>

    constructor (name: string, clusterStatus: seq<ClusterStatus>)
      ensures this.name == name && this.clusterStatus == clusterStatus
    {
      this.name, this.clusterStatus := name, clusterStatus;
    }

    /** updateBindingStatus: the new list, and whether the binding is to be written. */
    method UpdateBindingStatus(crs: seq<ClusterResource>, loopVar: LoopVar) returns (updateStatus: bool)
      modifies this`clusterStatus
      ensures Merged(clusterStatus, updateStatus) == MergeAll(old(clusterStatus), crs, name, loopVar)
    {
      updateStatus := false;
      ghost var was := clusterStatus;
      for i := 0 to |crs|
        invariant Merged(clusterStatus, updateStatus) == MergeAll(was, crs[..i], name, loopVar)
      {
        assert crs[..i + 1][..i] == crs[..i];
        var changed := MergeStatus(crs[i], loopVar);
        updateStatus := updateStatus || changed;
      }
      assert crs[..|crs|] == crs;
    }

    method MergeStatus(cr: ClusterResource, loopVar: LoopVar) returns (changed: bool)
      modifies this`clusterStatus
      ensures Merged(clusterStatus, changed) == MergeOne(old(clusterStatus), cr, name, loopVar)
    {
      if |cr.status.phase| <= 0 {
        return false;
      }
      var statusMap := BindingClusterStatusMap(clusterStatus, loopVar);
      var key := ClusterName(cr.namespace) + "." + cr.name;
      OwnEntryIn(clusterStatus, key);
      if key in statusMap {
        var bindingStatus := statusMap[key].value;
        if StatusEqual(cr.status, bindingStatus) {
          return false;
        }
        RemoveItem(bindingStatus);
      }
      clusterStatus := clusterStatus + [NewStatus(cr, name)];
      changed := true;
    }

    /** removeItemForClusterStatusList. */
    method RemoveItem(item: ClusterStatus)
      requires item in clusterStatus
      modifies this`clusterStatus
      ensures clusterStatus == RemovedAt(old(clusterStatus), IndexOf(old(clusterStatus), item))
    {
      var objectList := new ClusterStatus[|clusterStatus|](
        i requires 0 <= i < |clusterStatus| reads this => clusterStatus[i]);
      assert objectList[..] == clusterStatus;
      var index := GetIndexWithObject(clusterStatus, item);
      FirstIsUnique(clusterStatus, item, index);
      clusterStatus := RemoveObjectWithIndex(objectList, index);
    }
  }

  lemma FirstIsUnique(list: seq<ClusterStatus>, item: ClusterStatus, index: nat)
    requires index < |list| && list[index] == item && item !in list[..index]
    ensures index == IndexOf(list, item)
  {
    var first := IndexOf(list, item);
    forall i | 0 <= i < index ensures list[i] != item {
      assert list[..index][i] == list[i];
    }
    forall i | 0 <= i < first ensures list[i] != item {
      assert list[..first][i] == list[i];
    }
  }
}
