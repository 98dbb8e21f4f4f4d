/** The failover cursor: four indices walked over failover clusters and cluster sets, skipping the
    unavailable ones by comparing names with the list the check collected. */
module Failover {
  import opened Snapshot

  datatype FailoverPolicy =
    | OfCluster(name: string)
    | OfClusterSet(name: string)
    | OfOtherType(name: string)

  datatype Cursor = Cursor(done: nat, clusterSet: nat, unavailable: nat, failover: nat)

  datatype Advanced =
    | Placed(name: string, cursor: Cursor)
    | NotFound        // the cluster set cannot be read: an error is returned
    | IndexPanic      // an index left its list
    | Spins           // an entry of another type: the loop never moves again

  predicate Readable(w: World) {
    forall i :: 0 <= i < |w.order| ==> w.order[i] in w.clusters
  }

  function SetList(w: World, name: string): seq<string>
    requires Readable(w)
  {
    if name in w.sets then ClusterList(w, w.sets[name]) else []
  }

  /** doFailoverPolicy as written. */
  function Advance(w: World, entries: seq<FailoverPolicy>, unavailable: seq<string>, c: Cursor): Advanced
    requires Readable(w) && (unavailable != [] ==> c.unavailable < |unavailable|)
    decreases |entries| - c.failover, |EntryList(w, entries, c)| - c.clusterSet
  {
    if c.failover >= |entries| then IndexPanic
    else match entries[c.failover]
      case OfCluster(name) =>
        if unavailable == [] || name != unavailable[c.unavailable] then
          Placed(name, c.(done := c.done + 1, failover := c.failover + 1))
        else Advance(w, entries, unavailable, SkipOne(unavailable, c.(failover := c.failover + 1)))
      case OfClusterSet(name) =>
        if name !in w.sets then NotFound
        else if c.clusterSet >= |SetList(w, name)| then IndexPanic
        else if unavailable == [] || SetList(w, name)[c.clusterSet] != unavailable[c.unavailable] then
          Placed(SetList(w, name)[c.clusterSet],
                 if c.clusterSet < |SetList(w, name)| - 1 then c.(done := c.done + 1, clusterSet := c.clusterSet + 1)
                 else c.(done := c.done + 1, clusterSet := 0, failover := c.failover + 1))
        else Advance(w, entries, unavailable, SkipOne(unavailable, c.(clusterSet := c.clusterSet + 1)))
      case OfOtherType(_) => Spins
  }

  function EntryList(w: World, entries: seq<FailoverPolicy>, c: Cursor): seq<string>
    requires Readable(w)
  {
    if c.failover < |entries| && entries[c.failover].OfClusterSet? then SetList(w, entries[c.failover].name) else []
  }

  /** The skip cursor stays on its last entry. */
  function SkipOne(unavailable: seq<string>, c: Cursor): Cursor {
    if c.unavailable < |unavailable| - 1 then c.(unavailable := c.unavailable + 1) else c
  }

  // ---------- the simple reading ----------

  function OnlineOf(w: World, names: seq<string>): seq<string> {
    if names == [] then []
    else (if Online(w, names[0]) then [names[0]] else []) + OnlineOf(w, names[1..])
  }

  function OfflineOf(w: World, names: seq<string>): seq<string> {
    if names == [] then []
    else (if Online(w, names[0]) then [] else [names[0]]) + OfflineOf(w, names[1..])
  }

  /** The candidates of one entry; a set that cannot be read has none. */
  function Members(w: World, entry: FailoverPolicy): seq<string>
    requires Readable(w)
  {
    match entry
    case OfCluster(name) => [name]
    case OfClusterSet(name) => SetList(w, name)
    case OfOtherType(_) => []
  }

  /** All failover candidates in order. */
  function Flat(w: World, entries: seq<FailoverPolicy>): seq<string>
    requires Readable(w)
  {
    if entries == [] then [] else Members(w, entries[0]) + Flat(w, entries[1..])
  }

  /** The candidates the cursor can get to. It does not get past a cluster set that is empty,
      unreadable or whose last member is offline, nor past an entry of another type. */
  function Reach(w: World, entries: seq<FailoverPolicy>): seq<string>
    requires Readable(w)
  {
    if entries == [] then []
    else match entries[0]
      case OfCluster(name) => [name] + Reach(w, entries[1..])
      case OfClusterSet(name) => Within(w, SetList(w, name), 0, Reach(w, entries[1..]))
      case OfOtherType(_) => []
  }

  predicate OnlineLast(w: World, list: seq<string>) {
    list != [] && Online(w, list[|list| - 1])
  }

  /** From position `at` of a cluster set on, and beyond it when its last member is online. */
  function Within(w: World, list: seq<string>, at: nat, beyond: seq<string>): seq<string> {
    if at > |list| then []
    else list[at..] + if OnlineLast(w, list) then beyond else []
  }

  function ReachFrom(w: World, entries: seq<FailoverPolicy>, c: Cursor): seq<string>
    requires Readable(w)
  {
    if c.failover >= |entries| then []
    else if entries[c.failover].OfClusterSet? then
      Within(w, SetList(w, entries[c.failover].name), c.clusterSet, Reach(w, entries[c.failover + 1..]))
    else Reach(w, entries[c.failover..])
  }

  // ---------- what the check collects ----------

  /** failoverPolicyCheck's two results on one snapshot: how many candidates are online, and the names it
      found unavailable, in order. A set that cannot be read is collected under its own name. */
  function Unavailable(w: World, entries: seq<FailoverPolicy>): seq<string>
    requires Readable(w)
  {
    if entries == [] then [] else EntryDown(w, entries[0]) + Unavailable(w, entries[1..])
  }

  function FailoverCount(w: World, entries: seq<FailoverPolicy>): nat
    requires Readable(w)
  {
    if entries == [] then 0 else EntryCount(w, entries[0]) + FailoverCount(w, entries[1..])
  }

  /** The names one entry adds to the unavailable ones. */
  function EntryDown(w: World, entry: FailoverPolicy): seq<string>
    requires Readable(w)
  {
    match entry
    case OfCluster(name) => if Online(w, name) then [] else [name]
    case OfClusterSet(name) => if name in w.sets then OfflineOf(w, SetList(w, name)) else [name]
    case OfOtherType(_) => []
  }

  function EntryCount(w: World, entry: FailoverPolicy): nat
    requires Readable(w)
  {
    match entry
    case OfCluster(name) => if Online(w, name) then 1 else 0
    case OfClusterSet(name) => if name in w.sets then |OnlineOf(w, SetList(w, name))| else 0
    case OfOtherType(_) => 0
  }

  predicate AllReadable(w: World, entries: seq<FailoverPolicy>) {
    forall i :: 0 <= i < |entries| && entries[i].OfClusterSet? ==> entries[i].name in w.sets
  }

  lemma {:induction false} OnlineOfAppend(w: World, a: seq<string>, b: seq<string>)
    ensures OnlineOf(w, a + b) == OnlineOf(w, a) + OnlineOf(w, b)
    ensures OfflineOf(w, a + b) == OfflineOf(w, a) + OfflineOf(w, b)
  {
    if a == [] {
      assert a + b == b;
    } else {
      assert (a + b)[1..] == a[1..] + b;
      OnlineOfAppend(w, a[1..], b);
    }
  }

  lemma {:induction false} AllOnline(w: World, names: seq<string>)
    ensures forall i :: 0 <= i < |OfflineOf(w, names)| ==> !Online(w, OfflineOf(w, names)[i])
    ensures forall i :: 0 <= i < |OnlineOf(w, names)| ==> Online(w, OnlineOf(w, names)[i])
    ensures |OnlineOf(w, names)| + |OfflineOf(w, names)| == |names|
    ensures OfflineOf(w, names) == [] ==> OnlineOf(w, names) == names
  {
    if names != [] {
      AllOnline(w, names[1..]);
    }
  }

  lemma SingleName(w: World, name: string)
    ensures OnlineOf(w, [name]) == if Online(w, name) then [name] else []
    ensures OfflineOf(w, [name]) == if Online(w, name) then [] else [name]
  {
    assert [name][1..] == [];
  }

  /** The count is the number of online candidates; the list, if all sets can be read, the offline ones. */
  lemma {:induction false} CheckIsFilter(w: World, entries: seq<FailoverPolicy>)
    requires Readable(w)
    ensures FailoverCount(w, entries) == |OnlineOf(w, Flat(w, entries))|
    ensures AllReadable(w, entries) ==> Unavailable(w, entries) == OfflineOf(w, Flat(w, entries))
  {
    if entries != [] {
      assert forall i :: 0 <= i < |entries[1..]| ==> entries[1..][i] == entries[i + 1];
      CheckIsFilter(w, entries[1..]);
      OnlineOfAppend(w, Members(w, entries[0]), Flat(w, entries[1..]));
      SingleName(w, entries[0].name);
    }
  }

  /** What the check collected from the cursor on. */
  function DownFrom(w: World, entries: seq<FailoverPolicy>, c: Cursor): seq<string>
    requires Readable(w)
  {
    if c.failover >= |entries| then []
    else EntryDownFrom(w, entries[c.failover], c.clusterSet) + Unavailable(w, entries[c.failover + 1..])
  }

  function EntryDownFrom(w: World, entry: FailoverPolicy, at: nat): seq<string>
    requires Readable(w)
  {
    if entry.OfClusterSet? && entry.name in w.sets then
      if at <= |SetList(w, entry.name)| then OfflineOf(w, SetList(w, entry.name)[at..]) else []
    else EntryDown(w, entry)
  }

  // ---------- places ----------

  /** The candidate under the cursor, when the cursor is on one. */
  predicate OnCandidate(w: World, entries: seq<FailoverPolicy>, c: Cursor)
    requires Readable(w)
  {
    c.failover < |entries| && !entries[c.failover].OfOtherType? &&
    (entries[c.failover].OfClusterSet? ==>
      entries[c.failover].name in w.sets && c.clusterSet < |SetList(w, entries[c.failover].name)|)
  }

  function Candidate(w: World, entries: seq<FailoverPolicy>, c: Cursor): string
    requires Readable(w) && OnCandidate(w, entries, c)
  {
    if entries[c.failover].OfCluster? then entries[c.failover].name
    else SetList(w, entries[c.failover].name)[c.clusterSet]
  }

  /** The cursor gets past this entry. */
  predicate Passes(w: World, entry: FailoverPolicy)
    requires Readable(w)
  {
    entry.OfCluster? || (entry.OfClusterSet? && entry.name in w.sets && OnlineLast(w, SetList(w, entry.name)))
  }

  predicate InReach(w: World, entries: seq<FailoverPolicy>, f: nat)
    requires Readable(w)
  {
    forall i :: 0 <= i < f && i < |entries| ==> Passes(w, entries[i])
  }

  /** An online candidate whose name is the very one the check collected next, which is then a set that
      cannot be read: the comparison takes the candidate for an unavailable one. */
  predicate Shadowed(w: World, entries: seq<FailoverPolicy>, c: Cursor)
    requires Readable(w)
  {
    && OnCandidate(w, entries, c) && Online(w, Candidate(w, entries, c))
    && DownFrom(w, entries, c) != [] && DownFrom(w, entries, c)[0] == Candidate(w, entries, c)
  }

  function Place(f: nat, m: nat): Cursor {
    Cursor(0, m, 0, f)
  }

  /** No candidate the cursor can get to is shadowed. */
  ghost predicate Unshadowed(w: World, entries: seq<FailoverPolicy>)
    requires Readable(w)
  {
    forall f: nat, m: nat :: InReach(w, entries, f) ==> !Shadowed(w, entries, Place(f, m))
  }

  /** The skip cursor stands on the first name collected ahead, or on its last entry when none is ahead. */
  ghost predicate Aligned(w: World, entries: seq<FailoverPolicy>, unavailable: seq<string>, c: Cursor)
    requires Readable(w)
  {
    var ahead := DownFrom(w, entries, c);
    && (unavailable != [] ==> c.unavailable < |unavailable|)
    && |ahead| <= |unavailable|
    && (ahead != [] ==> c.unavailable == |unavailable| - |ahead| && unavailable[c.unavailable..] == ahead)
    && (ahead == [] && unavailable != [] ==>
      c.unavailable == |unavailable| - 1 && !Online(w, unavailable[c.unavailable]))
    && WellPlaced(w, entries, c)
  }

  /** The cursor got here past all entries before, and is inside a set only on an entry of that kind. */
  predicate WellPlaced(w: World, entries: seq<FailoverPolicy>, c: Cursor)
    requires Readable(w)
  {
    && InReach(w, entries, c.failover)
    && (c.clusterSet == 0 || c.failover >= |entries|
        || (entries[c.failover].OfClusterSet? && entries[c.failover].name in w.sets))
  }

  /** The cursor is past the end of a cluster set only after skipping its offline last member. */
  predicate Settled(w: World, entries: seq<FailoverPolicy>, c: Cursor)
    requires Readable(w)
  {
    var list := EntryList(w, entries, c);
    list != [] && c.clusterSet >= |list| ==> c.clusterSet == |list| && !OnlineLast(w, list)
  }

  lemma FreshEntry(w: World, entries: seq<FailoverPolicy>, c: Cursor)
    requires Readable(w) && c.failover <= |entries| && c.clusterSet == 0
    ensures DownFrom(w, entries, c) == Unavailable(w, entries[c.failover..])
    ensures ReachFrom(w, entries, c) == Reach(w, entries[c.failover..])
  {
    if c.failover < |entries| {
      var rest, list := entries[c.failover..], EntryList(w, entries, c);
      assert rest[0] == entries[c.failover] && rest[1..] == entries[c.failover + 1..];
      assert list[0..] == list;
    }
  }

  /** One position further, without the reset at the end of a set. */
  function Past(entries: seq<FailoverPolicy>, c: Cursor): Cursor
    requires c.failover < |entries|
  {
    if entries[c.failover].OfCluster? then c.(failover := c.failover + 1)
    else c.(clusterSet := c.clusterSet + 1)
  }

  lemma PastCluster(w: World, entries: seq<FailoverPolicy>, c: Cursor)
    requires Readable(w) && c.failover < |entries| && entries[c.failover].OfCluster? && c.clusterSet == 0
    ensures DownFrom(w, entries, c) == EntryDown(w, entries[c.failover]) + DownFrom(w, entries, Past(entries, c))
    ensures ReachFrom(w, entries, c) == [entries[c.failover].name] + ReachFrom(w, entries, Past(entries, c))
  {
    FreshEntry(w, entries, c);
    FreshEntry(w, entries, Past(entries, c));
    assert entries[c.failover..][0] == entries[c.failover] && entries[c.failover..][1..] == entries[c.failover + 1..];
  }

  lemma DropHead(list: seq<string>, at: nat, tail: seq<string>)
    requires at < |list|
    ensures list[at..] + tail == [list[at]] + (list[at + 1..] + tail)
  {
    assert list[at..] == [list[at]] + list[at + 1..];
  }

  lemma PastMemberDown(w: World, entries: seq<FailoverPolicy>, c: Cursor)
    requires Readable(w) && OnCandidate(w, entries, c) && entries[c.failover].OfClusterSet?
    ensures var name := Candidate(w, entries, c);
      DownFrom(w, entries, c) == (if Online(w, name) then [] else [name]) + DownFrom(w, entries, Past(entries, c))
  {
    hide Unavailable, SetList, Online, Reach;
    var list, rest := SetList(w, entries[c.failover].name), Unavailable(w, entries[c.failover + 1..]);
    var name, tail := list[c.clusterSet], OfflineOf(w, list[c.clusterSet + 1..]);
    OfflineHead(w, list, c.clusterSet);
    assert DownFrom(w, entries, c) == OfflineOf(w, list[c.clusterSet..]) + rest;
    assert DownFrom(w, entries, Past(entries, c)) == tail + rest;
    Associates(if Online(w, name) then [] else [name], tail, rest);
  }

  lemma Associates(a: seq<string>, b: seq<string>, c: seq<string>)
    ensures (a + b) + c == a + (b + c)
  {
  }

  lemma OfflineHead(w: World, list: seq<string>, at: nat)
    requires at < |list|
    ensures OfflineOf(w, list[at..]) == (if Online(w, list[at]) then [] else [list[at]]) + OfflineOf(w, list[at + 1..])
    ensures OnlineOf(w, list[at..]) == (if Online(w, list[at]) then [list[at]] else []) + OnlineOf(w, list[at + 1..])
  {
    assert list[at..][1..] == list[at + 1..];
  }

  lemma PastMemberReach(w: World, entries: seq<FailoverPolicy>, c: Cursor)
    requires Readable(w) && OnCandidate(w, entries, c) && entries[c.failover].OfClusterSet?
    ensures ReachFrom(w, entries, c) == [Candidate(w, entries, c)] + ReachFrom(w, entries, Past(entries, c))
  {
    hide Reach, OnlineLast, SetList;
    var list, tail := SetList(w, entries[c.failover].name), Reach(w, entries[c.failover + 1..]);
    DropHead(list, c.clusterSet, if OnlineLast(w, list) then tail else []);
    assert ReachFrom(w, entries, c) == Within(w, list, c.clusterSet, tail);
    assert ReachFrom(w, entries, Past(entries, c)) == Within(w, list, c.clusterSet + 1, tail);
  }

  lemma PastCandidate(w: World, entries: seq<FailoverPolicy>, c: Cursor)
    requires Readable(w) && OnCandidate(w, entries, c)
    requires entries[c.failover].OfCluster? ==> c.clusterSet == 0
    ensures var name := Candidate(w, entries, c);
      && DownFrom(w, entries, c) == (if Online(w, name) then [] else [name]) + DownFrom(w, entries, Past(entries, c))
      && ReachFrom(w, entries, c) == [name] + ReachFrom(w, entries, Past(entries, c))
  {
    if entries[c.failover].OfCluster? {
      PastCluster(w, entries, c);
    } else {
      PastMemberDown(w, entries, c);
      PastMemberReach(w, entries, c);
    }
  }

  lemma ReachHead(w: World, entries: seq<FailoverPolicy>, c: Cursor)
    requires Readable(w) && OnCandidate(w, entries, c) && WellPlaced(w, entries, c)
    ensures c.failover < |entries|
    ensures var name, reach := Candidate(w, entries, c), ReachFrom(w, entries, c);
      var rest := ReachFrom(w, entries, Past(entries, c));
      && |reach| == |rest| + 1
      && OnlineOf(w, reach) == (if Online(w, name) then [name] else []) + OnlineOf(w, rest)
      && OfflineOf(w, reach) == (if Online(w, name) then [] else [name]) + OfflineOf(w, rest)
  {
    PastCandidate(w, entries, c);
    var reach := ReachFrom(w, entries, c);
    OfflineHead(w, reach, 0);
    assert reach[0..] == reach && reach[1..] == ReachFrom(w, entries, Past(entries, c));
  }

  /** Skipping does not move the cursor over the candidates. */
  lemma SkipKeepsPlace(w: World, entries: seq<FailoverPolicy>, unavailable: seq<string>, c: Cursor)
    requires Readable(w)
    ensures var t := SkipOne(unavailable, c);
      && t.failover == c.failover && t.clusterSet == c.clusterSet
      && WellPlaced(w, entries, t) == WellPlaced(w, entries, c) && Settled(w, entries, t) == Settled(w, entries, c)
      && ReachFrom(w, entries, t) == ReachFrom(w, entries, c) && DownFrom(w, entries, t) == DownFrom(w, entries, c)
  {
  }

  /** Where a call leaves the cursor when it places the candidate under it. */
  function PlacedAt(w: World, entries: seq<FailoverPolicy>, c: Cursor): Cursor
    requires Readable(w) && OnCandidate(w, entries, c)
  {
    var past := Past(entries, c).(done := c.done + 1);
    if entries[c.failover].OfClusterSet? && past.clusterSet == |SetList(w, entries[c.failover].name)| then
      past.(clusterSet := 0, failover := past.failover + 1)
    else past
  }

  /** Placing the last member of a set resets the index and moves to the next entry. */
  lemma PlacedSame(w: World, entries: seq<FailoverPolicy>, c: Cursor)
    requires Readable(w) && OnCandidate(w, entries, c) && Online(w, Candidate(w, entries, c))
    ensures var t, past := PlacedAt(w, entries, c), Past(entries, c);
      && DownFrom(w, entries, t) == DownFrom(w, entries, past)
      && ReachFrom(w, entries, t) == ReachFrom(w, entries, past)
  {
    hide Reach, Unavailable, Within, EntryDown, EntryDownFrom;
    if entries[c.failover].OfClusterSet? && c.clusterSet + 1 == |SetList(w, entries[c.failover].name)| {
      ResetSame(w, entries, Past(entries, c), PlacedAt(w, entries, c));
    }
  }

  lemma ResetSame(w: World, entries: seq<FailoverPolicy>, c: Cursor, t: Cursor)
    requires Readable(w) && c.failover < |entries| && entries[c.failover].OfClusterSet?
      && entries[c.failover].name in w.sets
    requires OnlineLast(w, SetList(w, entries[c.failover].name))
      && c.clusterSet == |SetList(w, entries[c.failover].name)|
    requires t.failover == c.failover + 1 && t.clusterSet == 0
    ensures DownFrom(w, entries, t) == DownFrom(w, entries, c) && ReachFrom(w, entries, t) == ReachFrom(w, entries, c)
  {
    hide Reach, Unavailable, EntryDown;
    FreshEntry(w, entries, t);
    var list, beyond := SetList(w, entries[c.failover].name), Reach(w, entries[t.failover..]);
    assert list[|list|..] == [] && [] + beyond == beyond;
    assert [] + Unavailable(w, entries[t.failover..]) == Unavailable(w, entries[t.failover..]);
  }

  /** The cursor passes an entry by placing its last candidate. */
  lemma PlacedWell(w: World, entries: seq<FailoverPolicy>, c: Cursor)
    requires Readable(w) && OnCandidate(w, entries, c) && WellPlaced(w, entries, c)
      && Online(w, Candidate(w, entries, c))
    ensures WellPlaced(w, entries, PlacedAt(w, entries, c)) && Settled(w, entries, PlacedAt(w, entries, c))
  {
  }

  lemma SkippedWell(w: World, entries: seq<FailoverPolicy>, c: Cursor)
    requires Readable(w) && OnCandidate(w, entries, c) && WellPlaced(w, entries, c)
    ensures WellPlaced(w, entries, Past(entries, c))
    ensures !Online(w, Candidate(w, entries, c)) ==> Settled(w, entries, Past(entries, c))
  {
  }

  // ---------- one call from an aligned cursor ----------

  /** Unless the candidate is shadowed, the name comparison tells online candidates from unavailable ones. */
  lemma ComparesRight(w: World, entries: seq<FailoverPolicy>, unavailable: seq<string>, c: Cursor)
    requires Readable(w) && Aligned(w, entries, unavailable, c) && OnCandidate(w, entries, c)
    ensures unavailable == [] || Candidate(w, entries, c) != unavailable[c.unavailable] <==>
      Online(w, Candidate(w, entries, c)) && !Shadowed(w, entries, c)
  {
    PastCandidate(w, entries, c);
    var ahead := DownFrom(w, entries, c);
    if ahead != [] {
      assert unavailable[c.unavailable..][0] == unavailable[c.unavailable];
    }
  }

  lemma AlignedPast(w: World, entries: seq<FailoverPolicy>, unavailable: seq<string>, c: Cursor)
    requires Readable(w) && Aligned(w, entries, unavailable, c) && OnCandidate(w, entries, c)
    requires !Online(w, Candidate(w, entries, c))
    ensures Aligned(w, entries, unavailable, SkipOne(unavailable, Past(entries, c)))
  {
    hide DownFrom, ReachFrom;
    PastCandidate(w, entries, c);
    SkippedWell(w, entries, c);
    SkipKeepsPlace(w, entries, unavailable, Past(entries, c));
    var name, rest := Candidate(w, entries, c), DownFrom(w, entries, Past(entries, c));
    assert unavailable[c.unavailable..] == [name] + rest;
    SkipsTo(unavailable, c.unavailable, name, rest);
  }

  lemma SkipsTo(unavailable: seq<string>, at: nat, name: string, rest: seq<string>)
    requires at < |unavailable| && unavailable[at..] == [name] + rest
    ensures |unavailable| == at + 1 + |rest| && unavailable[at + 1..] == rest && unavailable[at] == name
  {
    assert unavailable[at..][1..] == unavailable[at + 1..] && unavailable[at..][0] == unavailable[at];
    assert ([name] + rest)[1..] == rest;
  }

  lemma PlaceStep(w: World, entries: seq<FailoverPolicy>, unavailable: seq<string>, c: Cursor)
    requires Readable(w) && Aligned(w, entries, unavailable, c)
    requires OnCandidate(w, entries, c) && Online(w, Candidate(w, entries, c))
    ensures var t := PlacedAt(w, entries, c);
      && Aligned(w, entries, unavailable, t) && Settled(w, entries, t)
      && ReachFrom(w, entries, c) == [Candidate(w, entries, c)] + ReachFrom(w, entries, t)
  {
    PastCandidate(w, entries, c);
    PlacedSame(w, entries, c);
    PlacedWell(w, entries, c);
    assert [] + DownFrom(w, entries, Past(entries, c)) == DownFrom(w, entries, Past(entries, c));
  }

  lemma SkipStep(w: World, entries: seq<FailoverPolicy>, unavailable: seq<string>, c: Cursor)
    requires Readable(w) && Aligned(w, entries, unavailable, c)
    requires OnCandidate(w, entries, c) && !Online(w, Candidate(w, entries, c))
    ensures var t := SkipOne(unavailable, Past(entries, c));
      && Aligned(w, entries, unavailable, t) && Settled(w, entries, t)
      && OnlineOf(w, ReachFrom(w, entries, t)) == OnlineOf(w, ReachFrom(w, entries, c))
  {
    hide *;
    AlignedPast(w, entries, unavailable, c);
    AlignedIsWellPlaced(w, entries, unavailable, c);
    SkippedWell(w, entries, c);
    ReachHead(w, entries, c);
    SkipKeepsPlace(w, entries, unavailable, Past(entries, c));
  }

  lemma AlignedIsWellPlaced(w: World, entries: seq<FailoverPolicy>, unavailable: seq<string>, c: Cursor)
    requires Readable(w) && Aligned(w, entries, unavailable, c)
    ensures WellPlaced(w, entries, c)
  {
  }

  /** Advance, one step at a time. */
  lemma AdvanceStep(w: World, entries: seq<FailoverPolicy>, unavailable: seq<string>, c: Cursor)
    requires Readable(w) && (unavailable != [] ==> c.unavailable < |unavailable|)
    ensures Advance(w, entries, unavailable, c) ==
      if !OnCandidate(w, entries, c) then Stuck(w, entries, c)
      else if unavailable == [] || Candidate(w, entries, c) != unavailable[c.unavailable] then
        Placed(Candidate(w, entries, c), PlacedAt(w, entries, c))
      else Advance(w, entries, unavailable, SkipOne(unavailable, Past(entries, c)))
  {
  }

  /** What happens when the cursor is on no candidate. */
  function Stuck(w: World, entries: seq<FailoverPolicy>, c: Cursor): Advanced {
    if c.failover >= |entries| then IndexPanic
    else if entries[c.failover].OfOtherType? then Spins
    else if entries[c.failover].name !in w.sets then NotFound
    else IndexPanic
  }

  lemma StuckMeansNoneInReach(w: World, entries: seq<FailoverPolicy>, c: Cursor)
    requires Readable(w) && WellPlaced(w, entries, c) && Settled(w, entries, c) && !OnCandidate(w, entries, c)
    ensures ReachFrom(w, entries, c) == []
  {
    if c.failover < |entries| && entries[c.failover].OfOtherType? {
      assert entries[c.failover..][0] == entries[c.failover];
    }
  }

  lemma NotShadowedHere(w: World, entries: seq<FailoverPolicy>, c: Cursor)
    requires Readable(w) && Unshadowed(w, entries) && InReach(w, entries, c.failover)
    ensures !Shadowed(w, entries, c)
  {
    hide Unavailable, EntryDown, EntryDownFrom, SetList, Online, Reach;
    var p := Place(c.failover, c.clusterSet);
    assert Shadowed(w, entries, p) <==> Shadowed(w, entries, c);
  }

  /** A call refines "take the next online candidate" as far as the cursor can get, and places
      nothing beyond that. */
  ghost predicate TakesNext(w: World, entries: seq<FailoverPolicy>, unavailable: seq<string>, c: Cursor, r: Advanced)
    requires Readable(w)
  {
    var online := OnlineOf(w, ReachFrom(w, entries, c));
    if r.Placed? then
      && online != [] && r.name == online[0]
      && Aligned(w, entries, unavailable, r.cursor) && Settled(w, entries, r.cursor)
      && OnlineOf(w, ReachFrom(w, entries, r.cursor)) == online[1..]
    else online == []
  }

  lemma TakesThis(w: World, entries: seq<FailoverPolicy>, unavailable: seq<string>, c: Cursor)
    requires Readable(w) && Aligned(w, entries, unavailable, c)
    requires OnCandidate(w, entries, c) && Online(w, Candidate(w, entries, c))
    ensures TakesNext(w, entries, unavailable, c, Placed(Candidate(w, entries, c), PlacedAt(w, entries, c)))
  {
    PlaceStep(w, entries, unavailable, c);
    var online, rest := OnlineOf(w, ReachFrom(w, entries, c)), ReachFrom(w, entries, PlacedAt(w, entries, c));
    assert ReachFrom(w, entries, c)[1..] == rest;
    assert online == [Candidate(w, entries, c)] + OnlineOf(w, rest);
  }

  lemma {:induction false} AdvanceTakesNext(w: World, entries: seq<FailoverPolicy>, unavailable: seq<string>, c: Cursor)
    requires Readable(w) && Aligned(w, entries, unavailable, c) && Settled(w, entries, c) && Unshadowed(w, entries)
    ensures TakesNext(w, entries, unavailable, c, Advance(w, entries, unavailable, c))
    decreases |entries| - c.failover, |EntryList(w, entries, c)| - c.clusterSet
  {
    AdvanceStep(w, entries, unavailable, c);
    if !OnCandidate(w, entries, c) {
      StuckMeansNoneInReach(w, entries, c);
    } else {
      NotShadowedHere(w, entries, c);
      ComparesRight(w, entries, unavailable, c);
      if Online(w, Candidate(w, entries, c)) {
        TakesThis(w, entries, unavailable, c);
      } else {
        SkipStep(w, entries, unavailable, c);
        AdvanceTakesNext(w, entries, unavailable, SkipOne(unavailable, Past(entries, c)));
      }
    }
  }

  // ---------- a sequence of calls on one index model ----------

  const START := Cursor(0, 0, 0, 0)

  datatype Run = Run(names: seq<string>, cursor: Cursor, ok: bool)

  /** k calls from a fresh index model; `ok` as long as every call has placed a name. */
  function Calls(w: World, entries: seq<FailoverPolicy>, unavailable: seq<string>, k: nat): (r: Run)
    requires Readable(w)
    ensures unavailable != [] ==> r.cursor.unavailable < |unavailable|
  {
    if k == 0 then Run([], START, true)
    else
      CallOnce(w, entries, unavailable, Calls(w, entries, unavailable, k - 1))
  }

  function CallOnce(w: World, entries: seq<FailoverPolicy>, unavailable: seq<string>, before: Run): (r: Run)
    requires Readable(w) && (unavailable != [] ==> before.cursor.unavailable < |unavailable|)
    ensures unavailable != [] ==> r.cursor.unavailable < |unavailable|
  {
    if !before.ok then before
    else match Advance(w, entries, unavailable, before.cursor)
      case Placed(name, cursor) =>
        AdvanceCounts(w, entries, unavailable, before.cursor);
        Run(before.names + [name], cursor, true)
      case _ => Run(before.names, before.cursor, false)
  }

  lemma {:induction false} AdvanceCounts(w: World, entries: seq<FailoverPolicy>, unavailable: seq<string>, c: Cursor)
    requires Readable(w) && (unavailable != [] ==> c.unavailable < |unavailable|)
    ensures var r := Advance(w, entries, unavailable, c);
      r.Placed? ==> r.cursor.done == c.done + 1 && (unavailable != [] ==> r.cursor.unavailable < |unavailable|)
    decreases |entries| - c.failover, |EntryList(w, entries, c)| - c.clusterSet
  {
    AdvanceStep(w, entries, unavailable, c);
    if OnCandidate(w, entries, c) && unavailable != [] && Candidate(w, entries, c) == unavailable[c.unavailable] {
      AdvanceCounts(w, entries, unavailable, SkipOne(unavailable, Past(entries, c)));
    }
  }

  /** As long as the calls go well there is a name for each, and the index model has counted them. */
  lemma {:induction false} CallsCount(w: World, entries: seq<FailoverPolicy>, unavailable: seq<string>, k: nat)
    requires Readable(w)
    ensures var r := Calls(w, entries, unavailable, k);
      r.ok ==> |r.names| == k == r.cursor.done
  {
    if k > 0 {
      CallsCount(w, entries, unavailable, k - 1);
      AdvanceCounts(w, entries, unavailable, Calls(w, entries, unavailable, k - 1).cursor);
    }
  }

  lemma StartAligned(w: World, entries: seq<FailoverPolicy>)
    requires Readable(w)
    ensures Aligned(w, entries, Unavailable(w, entries), START) && Settled(w, entries, START)
    ensures ReachFrom(w, entries, START) == Reach(w, entries)
  {
    FreshEntry(w, entries, START);
    assert entries[0..] == entries;
    var unavailable := Unavailable(w, entries);
    assert unavailable[0..] == unavailable;
  }

  /** After k calls the first k reachable online names are placed, and the cursor is ready for the rest. */
  ghost predicate Progress(w: World, entries: seq<FailoverPolicy>, unavailable: seq<string>, k: nat, r: Run)
    requires Readable(w)
  {
    var online := OnlineOf(w, Reach(w, entries));
    if k > |online| then !r.ok && r.names == online
    else
      && r.ok && r.names == online[..k]
      && Aligned(w, entries, unavailable, r.cursor) && Settled(w, entries, r.cursor)
      && OnlineOf(w, ReachFrom(w, entries, r.cursor)) == online[k..]
  }

  lemma NextOnline(online: seq<string>, k: nat)
    requires k <= |online|
    ensures k < |online| ==> online[k..][0] == online[k] && online[k..][1..] == online[k + 1..]
    ensures k < |online| ==> online[..k + 1] == online[..k] + [online[k]]
    ensures k == |online| ==> online[k..] == [] && online[..k] == online
  {
  }

  /** The next call. */
  lemma ProgressStep(w: World, entries: seq<FailoverPolicy>, unavailable: seq<string>, k: nat, r: Run)
    requires Readable(w) && Progress(w, entries, unavailable, k, r) && Unshadowed(w, entries)
    requires unavailable != [] ==> r.cursor.unavailable < |unavailable|
    ensures Progress(w, entries, unavailable, k + 1, CallOnce(w, entries, unavailable, r))
  {
    if r.ok {
      AdvanceTakesNext(w, entries, unavailable, r.cursor);
      NextOnline(OnlineOf(w, Reach(w, entries)), k);
    }
  }

  lemma {:induction false} CallsTakeOnline(w: World, entries: seq<FailoverPolicy>, k: nat)
    requires Readable(w) && Unshadowed(w, entries)
    ensures Progress(w, entries, Unavailable(w, entries), k, Calls(w, entries, Unavailable(w, entries), k))
  {
    if k == 0 {
      StartAligned(w, entries);
    } else {
      CallsTakeOnline(w, entries, k - 1);
      ProgressStep(w, entries, Unavailable(w, entries), k - 1, Calls(w, entries, Unavailable(w, entries), k - 1));
    }
  }

  // ---------- when a candidate is shadowed ----------

  /** Some shadowed candidate is at the cursor or ahead of it, within reach. */
  ghost predicate ShadowAhead(w: World, entries: seq<FailoverPolicy>, c: Cursor)
    requires Readable(w)
  {
    exists f: nat, m: nat ::
      InReach(w, entries, f) && Shadowed(w, entries, Place(f, m)) && AtOrAhead(c, f, m)
  }

  lemma ShadowKeepsCursor(w: World, entries: seq<FailoverPolicy>, c: Cursor)
    requires Readable(w) && WellPlaced(w, entries, c) && Settled(w, entries, c) && ShadowAhead(w, entries, c)
    ensures OnCandidate(w, entries, c)
  {
    var f: nat, m: nat :| InReach(w, entries, f) && Shadowed(w, entries, Place(f, m)) && AtOrAhead(c, f, m);
    if f > c.failover {
      assert Passes(w, entries[c.failover]);
    }
  }

  predicate AtOrAhead(c: Cursor, f: nat, m: nat) {
    f > c.failover || (f == c.failover && m >= c.clusterSet)
  }

  lemma SamePlace(w: World, entries: seq<FailoverPolicy>, c: Cursor, m: nat)
    requires Readable(w) && c.failover < |entries| && (m == c.clusterSet || entries[c.failover].OfCluster?)
    ensures Shadowed(w, entries, Place(c.failover, m)) == Shadowed(w, entries, c)
  {
  }

  lemma ShadowedFacts(w: World, entries: seq<FailoverPolicy>, c: Cursor)
    requires Readable(w) && Shadowed(w, entries, c)
    ensures OnCandidate(w, entries, c) && Online(w, Candidate(w, entries, c))
    ensures DownFrom(w, entries, c) != [] && DownFrom(w, entries, c)[0] == Candidate(w, entries, c)
  {
  }

  /** The shadowed candidate is not the one here: it is in the same set further on, or behind an entry that
      the cursor passes. */
  lemma ShadowFurther(w: World, entries: seq<FailoverPolicy>, c: Cursor, f: nat, m: nat)
    requires Readable(w) && OnCandidate(w, entries, c) && !Shadowed(w, entries, c)
    requires InReach(w, entries, f) && Shadowed(w, entries, Place(f, m)) && AtOrAhead(c, f, m)
    ensures f > c.failover ==> Passes(w, entries[c.failover])
    ensures f == c.failover ==> entries[f].OfClusterSet? && c.clusterSet < m < |SetList(w, entries[f].name)|
  {
    hide Shadowed;
    ShadowedFacts(w, entries, Place(f, m));
    if f == c.failover {
      assert f < |entries|;
      if m == c.clusterSet || entries[f].OfCluster? {
        SamePlace(w, entries, c, m);
      }
    }
  }

  /** It stays ahead when the candidate here is placed or skipped as it should be. */
  lemma ShadowStaysAhead(w: World, entries: seq<FailoverPolicy>, c: Cursor)
    requires Readable(w) && OnCandidate(w, entries, c) && WellPlaced(w, entries, c)
    requires ShadowAhead(w, entries, c) && !Shadowed(w, entries, c)
    ensures Online(w, Candidate(w, entries, c)) ==> ShadowAhead(w, entries, PlacedAt(w, entries, c))
    ensures !Online(w, Candidate(w, entries, c)) ==> ShadowAhead(w, entries, Past(entries, c))
  {
    hide Shadowed, InReach;
    var f: nat, m: nat :| InReach(w, entries, f) && Shadowed(w, entries, Place(f, m)) && AtOrAhead(c, f, m);
    ShadowFurther(w, entries, c, f, m);
    if Online(w, Candidate(w, entries, c)) {
      assert AtOrAhead(PlacedAt(w, entries, c), f, m);
    } else {
      assert AtOrAhead(Past(entries, c), f, m);
    }
  }

  /** The offline candidates within reach are collected first. */
  lemma {:induction false} ReachDown(w: World, entries: seq<FailoverPolicy>)
    requires Readable(w)
    ensures OfflineOf(w, Reach(w, entries)) <= Unavailable(w, entries)
  {
    if entries != [] {
      ReachDown(w, entries[1..]);
      ReachDownEntry(w, entries[0], Reach(w, entries[1..]), Unavailable(w, entries[1..]));
      var list := SetList(w, entries[0].name);
      assert list[0..] == list;
    }
  }

  lemma ReachDownEntry(w: World, entry: FailoverPolicy, reach: seq<string>, down: seq<string>)
    requires Readable(w) && OfflineOf(w, reach) <= down
    ensures entry.OfCluster? ==> OfflineOf(w, [entry.name] + reach) <= EntryDown(w, entry) + down
    ensures entry.OfClusterSet? ==>
      OfflineOf(w, Within(w, SetList(w, entry.name), 0, reach)) <= EntryDown(w, entry) + down
  {
    OnlineOfAppend(w, [entry.name], reach);
    SingleName(w, entry.name);
    var list := SetList(w, entry.name);
    assert list[0..] == list;
    OnlineOfAppend(w, list, if OnlineLast(w, list) then reach else []);
  }

  lemma ReachDownWithin(w: World, list: seq<string>, at: nat, reach: seq<string>, down: seq<string>)
    requires Readable(w) && OfflineOf(w, reach) <= down
    ensures OfflineOf(w, Within(w, list, at, reach)) <= (if at <= |list| then OfflineOf(w, list[at..]) else []) + down
  {
    if at <= |list| {
      OnlineOfAppend(w, list[at..], if OnlineLast(w, list) then reach else []);
    }
  }

  lemma ReachDownFrom(w: World, entries: seq<FailoverPolicy>, c: Cursor)
    requires Readable(w) && WellPlaced(w, entries, c)
    ensures OfflineOf(w, ReachFrom(w, entries, c)) <= DownFrom(w, entries, c)
  {
    hide Reach, Unavailable, EntryDown, Online;
    if c.failover < |entries| {
      if entries[c.failover].OfClusterSet? && entries[c.failover].name in w.sets {
        ReachDown(w, entries[c.failover + 1..]);
        ReachDownWithin(w, SetList(w, entries[c.failover].name), c.clusterSet, Reach(w, entries[c.failover + 1..]),
          Unavailable(w, entries[c.failover + 1..]));
      } else {
        FreshEntry(w, entries, c);
        ReachDown(w, entries[c.failover..]);
      }
    }
  }

  /** After skipping a shadowed candidate the cursor only has online ones ahead, whatever it skips next. */
  ghost predicate Loose(w: World, entries: seq<FailoverPolicy>, c: Cursor)
    requires Readable(w)
  {
    WellPlaced(w, entries, c) && OfflineOf(w, ReachFrom(w, entries, c)) == []
  }

  lemma SkipShadowed(w: World, entries: seq<FailoverPolicy>, unavailable: seq<string>, c: Cursor)
    requires Readable(w) && WellPlaced(w, entries, c) && Shadowed(w, entries, c)
    ensures var t := SkipOne(unavailable, Past(entries, c));
      && Loose(w, entries, t)
      && |ReachFrom(w, entries, t)| + 1 == |OnlineOf(w, ReachFrom(w, entries, c))|
  {
    hide *;
    ShadowedFacts(w, entries, c);
    var past := Past(entries, c);
    ReachHead(w, entries, c);
    PastOnlineDown(w, entries, c);
    SkippedWell(w, entries, c);
    ReachDownFrom(w, entries, past);
    NoneOffline(w, ReachFrom(w, entries, past), DownFrom(w, entries, past), Candidate(w, entries, c));
    AllOnline(w, ReachFrom(w, entries, past));
    SkipKeepsPlace(w, entries, unavailable, past);
    LooseIs(w, entries, SkipOne(unavailable, past));
  }

  lemma PastOnlineDown(w: World, entries: seq<FailoverPolicy>, c: Cursor)
    requires Readable(w) && OnCandidate(w, entries, c) && WellPlaced(w, entries, c)
      && Online(w, Candidate(w, entries, c))
    ensures c.failover < |entries| && DownFrom(w, entries, c) == DownFrom(w, entries, Past(entries, c))
  {
    PastCandidate(w, entries, c);
    assert [] + DownFrom(w, entries, Past(entries, c)) == DownFrom(w, entries, Past(entries, c));
  }

  lemma LooseIs(w: World, entries: seq<FailoverPolicy>, c: Cursor)
    requires Readable(w)
    ensures Loose(w, entries, c) <==> WellPlaced(w, entries, c) && OfflineOf(w, ReachFrom(w, entries, c)) == []
  {
  }

  /** If what was collected first is an online name, none of the candidates here are offline. */
  lemma NoneOffline(w: World, names: seq<string>, down: seq<string>, name: string)
    requires OfflineOf(w, names) <= down && down != [] && down[0] == name && Online(w, name)
    ensures OfflineOf(w, names) == []
  {
    AllOnline(w, names);
  }

  lemma LooseStep(w: World, entries: seq<FailoverPolicy>, unavailable: seq<string>, c: Cursor)
    requires Readable(w) && Loose(w, entries, c) && OnCandidate(w, entries, c)
    ensures Online(w, Candidate(w, entries, c))
    ensures Loose(w, entries, PlacedAt(w, entries, c)) && Loose(w, entries, SkipOne(unavailable, Past(entries, c)))
    ensures |ReachFrom(w, entries, PlacedAt(w, entries, c))| == |ReachFrom(w, entries, c)| - 1
    ensures |ReachFrom(w, entries, SkipOne(unavailable, Past(entries, c)))| == |ReachFrom(w, entries, c)| - 1
  {
    LooseIs(w, entries, c);
    ReachHead(w, entries, c);
    PlacedSame(w, entries, c);
    PlacedWell(w, entries, c);
    SkippedWell(w, entries, c);
    SkipKeepsPlace(w, entries, unavailable, Past(entries, c));
    LooseIs(w, entries, PlacedAt(w, entries, c));
    LooseIs(w, entries, SkipOne(unavailable, Past(entries, c)));
  }

  lemma {:induction false} LooseAdvance(w: World, entries: seq<FailoverPolicy>, unavailable: seq<string>, c: Cursor)
    requires Readable(w) && Loose(w, entries, c) && (unavailable != [] ==> c.unavailable < |unavailable|)
    ensures var r := Advance(w, entries, unavailable, c);
      r.Placed? ==> Online(w, r.name) && Loose(w, entries, r.cursor)
                    && |ReachFrom(w, entries, r.cursor)| < |ReachFrom(w, entries, c)|
    decreases |entries| - c.failover, |EntryList(w, entries, c)| - c.clusterSet
  {
    AdvanceStep(w, entries, unavailable, c);
    if OnCandidate(w, entries, c) {
      LooseStep(w, entries, unavailable, c);
      if unavailable != [] && Candidate(w, entries, c) == unavailable[c.unavailable] {
        LooseAdvance(w, entries, unavailable, SkipOne(unavailable, Past(entries, c)));
      }
    }
  }

  /** In step with what the check collected, with a shadowed candidate still ahead. */
  ghost predicate Tight(w: World, entries: seq<FailoverPolicy>, unavailable: seq<string>, c: Cursor)
    requires Readable(w)
  {
    Aligned(w, entries, unavailable, c) && Settled(w, entries, c) && ShadowAhead(w, entries, c)
  }

  /** Still in step after j of n online candidates within reach, or out of step with fewer than n - j left. */
  ghost predicate OnCourse(w: World, entries: seq<FailoverPolicy>, unavailable: seq<string>, n: int, c: Cursor)
    requires Readable(w)
  {
    || (Tight(w, entries, unavailable, c) && |OnlineOf(w, ReachFrom(w, entries, c))| == n)
    || (Loose(w, entries, c) && |ReachFrom(w, entries, c)| < n)
  }

  lemma TightPlaces(w: World, entries: seq<FailoverPolicy>, unavailable: seq<string>, c: Cursor)
    requires Readable(w) && Tight(w, entries, unavailable, c) && OnCandidate(w, entries, c)
    requires Online(w, Candidate(w, entries, c)) && !Shadowed(w, entries, c)
    ensures var t := PlacedAt(w, entries, c);
      && Tight(w, entries, unavailable, t)
      && |OnlineOf(w, ReachFrom(w, entries, t))| == |OnlineOf(w, ReachFrom(w, entries, c))| - 1
  {
    PlaceStep(w, entries, unavailable, c);
    ShadowStaysAhead(w, entries, c);
    assert ReachFrom(w, entries, c)[1..] == ReachFrom(w, entries, PlacedAt(w, entries, c));
  }

  lemma TightSkips(w: World, entries: seq<FailoverPolicy>, unavailable: seq<string>, c: Cursor)
    requires Readable(w) && Tight(w, entries, unavailable, c) && OnCandidate(w, entries, c)
    requires !Online(w, Candidate(w, entries, c))
    ensures var t := SkipOne(unavailable, Past(entries, c));
      && Tight(w, entries, unavailable, t)
      && OnlineOf(w, ReachFrom(w, entries, t)) == OnlineOf(w, ReachFrom(w, entries, c))
  {
    SkipStep(w, entries, unavailable, c);
    ShadowStaysAhead(w, entries, c);
    var past := Past(entries, c);
    var f: nat, m: nat :| InReach(w, entries, f) && Shadowed(w, entries, Place(f, m)) && AtOrAhead(past, f, m);
    assert AtOrAhead(SkipOne(unavailable, past), f, m);
  }

  lemma {:induction false} TightAdvance(w: World, entries: seq<FailoverPolicy>, unavailable: seq<string>, c: Cursor)
    requires Readable(w) && Tight(w, entries, unavailable, c)
    ensures var r, n := Advance(w, entries, unavailable, c), |OnlineOf(w, ReachFrom(w, entries, c))|;
      r.Placed? ==> Online(w, r.name) && OnCourse(w, entries, unavailable, n - 1, r.cursor)
    decreases |entries| - c.failover, |EntryList(w, entries, c)| - c.clusterSet
  {
    AdvanceStep(w, entries, unavailable, c);
    ShadowKeepsCursor(w, entries, c);
    ComparesRight(w, entries, unavailable, c);
    if !Online(w, Candidate(w, entries, c)) {
      TightSkips(w, entries, unavailable, c);
      TightAdvance(w, entries, unavailable, SkipOne(unavailable, Past(entries, c)));
    } else if Shadowed(w, entries, c) {
      SkipShadowed(w, entries, unavailable, c);
      LooseAdvance(w, entries, unavailable, SkipOne(unavailable, Past(entries, c)));
    } else {
      TightPlaces(w, entries, unavailable, c);
    }
  }

  /** After k calls only online clusters are placed, and fewer are left than the shadowed one allows for. */
  ghost predicate RunOnCourse(w: World, entries: seq<FailoverPolicy>, unavailable: seq<string>, k: nat, r: Run)
    requires Readable(w)
  {
    && (forall i :: 0 <= i < |r.names| ==> Online(w, r.names[i]))
    && (r.ok ==> OnCourse(w, entries, unavailable, |OnlineOf(w, Reach(w, entries))| - k, r.cursor))
  }

  lemma CallOnCourse(w: World, entries: seq<FailoverPolicy>, unavailable: seq<string>, k: nat, r: Run)
    requires Readable(w) && RunOnCourse(w, entries, unavailable, k, r)
    requires unavailable != [] ==> r.cursor.unavailable < |unavailable|
    ensures RunOnCourse(w, entries, unavailable, k + 1, CallOnce(w, entries, unavailable, r))
  {
    hide OnCourse, Advance, Reach;
    if r.ok {
      CourseStep(w, entries, unavailable, |OnlineOf(w, Reach(w, entries))| - k, r.cursor);
    }
  }

  lemma {:induction false} CallsOnCourse(w: World, entries: seq<FailoverPolicy>, k: nat)
    requires Readable(w) && !Unshadowed(w, entries)
    ensures RunOnCourse(w, entries, Unavailable(w, entries), k, Calls(w, entries, Unavailable(w, entries), k))
  {
    if k == 0 {
      StartOnCourse(w, entries);
    } else {
      CallsOnCourse(w, entries, k - 1);
      CallOnCourse(w, entries, Unavailable(w, entries), k - 1, Calls(w, entries, Unavailable(w, entries), k - 1));
    }
  }

  lemma StartOnCourse(w: World, entries: seq<FailoverPolicy>)
    requires Readable(w) && !Unshadowed(w, entries)
    ensures OnCourse(w, entries, Unavailable(w, entries), |OnlineOf(w, Reach(w, entries))|, START)
  {
    StartAligned(w, entries);
    var f: nat, m: nat :| InReach(w, entries, f) && Shadowed(w, entries, Place(f, m));
    assert AtOrAhead(START, f, m);
  }

  lemma CourseStep(w: World, entries: seq<FailoverPolicy>, unavailable: seq<string>, n: int, c: Cursor)
    requires Readable(w) && OnCourse(w, entries, unavailable, n, c)
      && (unavailable != [] ==> c.unavailable < |unavailable|)
    ensures var r := Advance(w, entries, unavailable, c);
      r.Placed? ==> Online(w, r.name) && OnCourse(w, entries, unavailable, n - 1, r.cursor)
  {
    if Tight(w, entries, unavailable, c) && |OnlineOf(w, ReachFrom(w, entries, c))| == n {
      TightAdvance(w, entries, unavailable, c);
    } else {
      LooseAdvance(w, entries, unavailable, c);
    }
  }

  /** A shadowed candidate ahead is one of the online candidates within reach. */
  lemma {:induction false} ShadowCounts(w: World, entries: seq<FailoverPolicy>, unavailable: seq<string>, c: Cursor)
    requires Readable(w) && Tight(w, entries, unavailable, c)
    ensures OnlineOf(w, ReachFrom(w, entries, c)) != []
    decreases |entries| - c.failover, |EntryList(w, entries, c)| - c.clusterSet
  {
    ShadowKeepsCursor(w, entries, c);
    PastCandidate(w, entries, c);
    assert ReachFrom(w, entries, c)[1..] == ReachFrom(w, entries, Past(entries, c));
    if !Online(w, Candidate(w, entries, c)) {
      TightSkips(w, entries, unavailable, c);
      ShadowCounts(w, entries, unavailable, SkipOne(unavailable, Past(entries, c)));
    }
  }

  /** With a shadowed candidate within reach the cursor cannot place all the online ones. */
  lemma ShadowedFails(w: World, entries: seq<FailoverPolicy>)
    requires Readable(w) && !Unshadowed(w, entries)
    ensures !Calls(w, entries, Unavailable(w, entries), |OnlineOf(w, Reach(w, entries))|).ok
  {
    var unavailable, n := Unavailable(w, entries), |OnlineOf(w, Reach(w, entries))|;
    CallsOnCourse(w, entries, n);
    var r := Calls(w, entries, unavailable, n);
    if Tight(w, entries, unavailable, r.cursor) {
      ShadowCounts(w, entries, unavailable, r.cursor);
    }
  }

  // ---------- main results ----------

  /** Nothing stops the cursor: every set can be read, has members and ends with an online one. */
  predicate Passable(w: World, entries: seq<FailoverPolicy>)
    requires Readable(w)
  {
    forall i :: 0 <= i < |entries| ==> Passes(w, entries[i])
  }

  lemma {:induction false} PassableReachesAll(w: World, entries: seq<FailoverPolicy>)
    requires Readable(w) && Passable(w, entries)
    ensures Reach(w, entries) == Flat(w, entries) && AllReadable(w, entries)
  {
    if entries != [] {
      assert forall i :: 0 <= i < |entries[1..]| ==> entries[1..][i] == entries[i + 1];
      PassableReachesAll(w, entries[1..]);
    }
  }

  lemma {:induction false} ReadableDown(w: World, entries: seq<FailoverPolicy>)
    requires Readable(w) && AllReadable(w, entries)
    ensures forall i :: 0 <= i < |Unavailable(w, entries)| ==> !Online(w, Unavailable(w, entries)[i])
  {
    CheckIsFilter(w, entries);
    AllOnline(w, Flat(w, entries));
  }

  lemma ReadableDownFrom(w: World, entries: seq<FailoverPolicy>, c: Cursor)
    requires Readable(w) && AllReadable(w, entries)
    ensures forall i :: 0 <= i < |DownFrom(w, entries, c)| ==> !Online(w, DownFrom(w, entries, c)[i])
  {
    hide Unavailable, Online;
    if c.failover < |entries| {
      var rest := entries[c.failover + 1..];
      assert forall i :: 0 <= i < |rest| ==> rest[i] == entries[c.failover + 1 + i];
      ReadableDown(w, rest);
      EntryDownOffline(w, entries[c.failover], c.clusterSet);
    }
  }

  lemma EntryDownOffline(w: World, entry: FailoverPolicy, at: nat)
    requires Readable(w) && (entry.OfClusterSet? ==> entry.name in w.sets)
    ensures forall i :: 0 <= i < |EntryDownFrom(w, entry, at)| ==> !Online(w, EntryDownFrom(w, entry, at)[i])
  {
    if entry.OfClusterSet? && at <= |SetList(w, entry.name)| {
      AllOnline(w, SetList(w, entry.name)[at..]);
    }
  }

  lemma ReadableIsUnshadowed(w: World, entries: seq<FailoverPolicy>)
    requires Readable(w) && AllReadable(w, entries)
    ensures Unshadowed(w, entries)
  {
    hide DownFrom, Online, OnCandidate, Candidate;
    forall f: nat, m: nat ensures !Shadowed(w, entries, Place(f, m)) {
      ReadableDownFrom(w, entries, Place(f, m));
    }
  }

  lemma {:induction false} ReachIsPrefix(w: World, entries: seq<FailoverPolicy>)
    requires Readable(w)
    ensures Reach(w, entries) <= Flat(w, entries)
  {
    if entries != [] {
      ReachIsPrefix(w, entries[1..]);
      assert Flat(w, entries) == Members(w, entries[0]) + Flat(w, entries[1..]);
      if entries[0].OfClusterSet? {
        var list := SetList(w, entries[0].name);
        assert list[0..] == list;
      }
    }
  }

  lemma OnlineOfPrefix(w: World, a: seq<string>, b: seq<string>)
    requires a <= b
    ensures OnlineOf(w, a) <= OnlineOf(w, b)
  {
    assert b == a + b[|a|..];
    OnlineOfAppend(w, a, b[|a|..]);
  }

  /** The first k calls succeed exactly when k online candidates are within reach. */
  ghost predicate ReachesAll(w: World, entries: seq<FailoverPolicy>)
    requires Readable(w)
  {
    forall k: nat :: Calls(w, entries, Unavailable(w, entries), k).ok <==> k <= |OnlineOf(w, Reach(w, entries))|
  }

  /** The cursor refines the filter if and only if no candidate within reach has the very name that the
      check collected next. Then the first k calls place the first k online candidates, for every k up to the
      number within reach; with nothing in the cursor's way these are all that the check counted. */
  lemma CursorRefinesFilter(w: World, entries: seq<FailoverPolicy>)
    requires Readable(w)
    ensures Unshadowed(w, entries) <==> ReachesAll(w, entries)
    ensures Unshadowed(w, entries) ==> forall k: nat | k <= |OnlineOf(w, Reach(w, entries))| ::
      Calls(w, entries, Unavailable(w, entries), k).names == OnlineOf(w, Reach(w, entries))[..k]
    ensures OnlineOf(w, Reach(w, entries)) <= OnlineOf(w, Flat(w, entries))
    ensures |OnlineOf(w, Flat(w, entries))| == FailoverCount(w, entries)
    ensures Passable(w, entries) ==> Unshadowed(w, entries) && Reach(w, entries) == Flat(w, entries)
  {
    CheckIsFilter(w, entries);
    ReachIsPrefix(w, entries);
    OnlineOfPrefix(w, Reach(w, entries), Flat(w, entries));
    if Unshadowed(w, entries) {
      var down := Unavailable(w, entries);
      forall k: nat ensures Progress(w, entries, down, k, Calls(w, entries, down, k)) {
        CallsTakeOnline(w, entries, k);
      }
    } else {
      ShadowedFails(w, entries);
    }
    if Passable(w, entries) {
      PassableReachesAll(w, entries);
      ReadableIsUnshadowed(w, entries);
    }
  }

  /** Whatever is shadowed, only online clusters are placed. */
  lemma PlacedAreOnline(w: World, entries: seq<FailoverPolicy>, k: nat)
    requires Readable(w)
    ensures var r := Calls(w, entries, Unavailable(w, entries), k);
      forall i :: 0 <= i < |r.names| ==> Online(w, r.names[i])
  {
    if Unshadowed(w, entries) {
      CallsTakeOnline(w, entries, k);
      AllOnline(w, Reach(w, entries));
    } else {
      CallsOnCourse(w, entries, k);
    }
  }

  /** A cluster set with an offline last member hides the online cluster behind it: two candidates
      are counted, and the second call runs off the set. */
  lemma OfflineLastMemberBlocks(w: World, s: string, a: string, b: string, x: string)
    requires Readable(w) && s in w.sets && ClusterList(w, w.sets[s]) == [a, b]
    requires Online(w, a) && !Online(w, b) && Online(w, x)
    ensures var entries := [OfClusterSet(s), OfCluster(x)];
      && FailoverCount(w, entries) == 2
      && Calls(w, entries, Unavailable(w, entries), 1).ok
      && !Calls(w, entries, Unavailable(w, entries), 2).ok
  {
    var entries := [OfClusterSet(s), OfCluster(x)];
    assert entries[1..] == [OfCluster(x)] && SetList(w, s) == [a, b];
    assert [a, b][1..] == [b] && [a, b][0..] == [a, b];
    SingleName(w, b);
    assert OnlineOf(w, [a, b]) == [a] + OnlineOf(w, [b]) == [a];
    assert Reach(w, entries) == Within(w, [a, b], 0, Reach(w, entries[1..])) == [a, b];
    assert OnlineOf(w, [x]) == [x] && entries[1..][1..] == [];
    assert FailoverCount(w, entries[1..]) == 1;
    ReadableIsUnshadowed(w, entries);
    CursorRefinesFilter(w, entries);
  }

  /** A deleted cluster set with the name of an online cluster hides that cluster: one candidate is counted,
      but the first call skips it and fails to read the set. */
  lemma DeletedSetHidesCluster(w: World, x: string)
    requires Readable(w) && Online(w, x) && x !in w.sets
    ensures var entries := [OfCluster(x), OfClusterSet(x)];
      && FailoverCount(w, entries) == 1
      && !Unshadowed(w, entries)
      && Advance(w, entries, Unavailable(w, entries), START) == NotFound
  {
    var entries := [OfCluster(x), OfClusterSet(x)];
    assert entries[1..] == [OfClusterSet(x)] && entries[1..][1..] == [];
    assert Unavailable(w, entries[1..]) == [x] && Unavailable(w, entries) == [] + [x] == [x];
    assert FailoverCount(w, entries[1..]) == 0;
    assert DownFrom(w, entries, Place(0, 0)) == [x];
    assert Shadowed(w, entries, Place(0, 0)) && InReach(w, entries, 0);
    assert Advance(w, entries, [x], Cursor(0, 0, 0, 1)) == NotFound;
  }
}
