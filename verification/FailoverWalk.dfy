/** All answers of one index model at once: a single walk over the candidates.

    This is exact for every list of unavailable names, whatever it was collected from. */
module FailoverWalk {
  import opened Snapshot
  import opened Failover

  predicate Skips(name: string, down: seq<string>) {
    down != [] && name == down[0]
  }

  /** The name after the current one; the last one stays. */
  function Behind(down: seq<string>): seq<string> {
    if |down| > 1 then down[1..] else down
  }

  /** The names that calls can place: a candidate is skipped when it has the name that is next on the list. */
  function Walk(w: World, entries: seq<FailoverPolicy>, down: seq<string>): seq<string>
    requires Readable(w)
    decreases entries, 0
  {
    if entries == [] then []
    else match entries[0]
      case OfCluster(name) =>
        if Skips(name, down) then Walk(w, entries[1..], Behind(down)) else [name] + Walk(w, entries[1..], down)
      case OfClusterSet(name) => WalkMembers(w, SetList(w, name), down, entries[1..])
      case OfOtherType(_) => []
  }

  /** The members of a set, and what comes behind them unless the last member is skipped. */
  function WalkMembers(w: World, list: seq<string>, down: seq<string>, beyond: seq<FailoverPolicy>): seq<string>
    requires Readable(w)
    decreases beyond, 1, list
  {
    if list == [] then []
    else if Skips(list[0], down) then
      if |list| == 1 then [] else WalkMembers(w, list[1..], Behind(down), beyond)
    else
      [list[0]] + if |list| == 1 then Walk(w, beyond, down) else WalkMembers(w, list[1..], down, beyond)
  }

  /** Where the walk stops: at a set that cannot be read, at an entry of another type, or with an index past the end
      of the entries or of a set. */
  function WalkStop(w: World, entries: seq<FailoverPolicy>, down: seq<string>): (r: Advanced)
    requires Readable(w)
    ensures !r.Placed?
    decreases entries, 0
  {
    if entries == [] then IndexPanic
    else match entries[0]
      case OfCluster(name) =>
        if Skips(name, down) then WalkStop(w, entries[1..], Behind(down)) else WalkStop(w, entries[1..], down)
      case OfClusterSet(name) =>
        if name in w.sets then MembersStop(w, SetList(w, name), down, entries[1..]) else NotFound
      case OfOtherType(_) => Spins
  }

  function MembersStop(w: World, list: seq<string>, down: seq<string>, beyond: seq<FailoverPolicy>): (r: Advanced)
    requires Readable(w)
    ensures !r.Placed?
    decreases beyond, 1, list
  {
    if list == [] then IndexPanic
    else if Skips(list[0], down) then
      if |list| == 1 then IndexPanic else MembersStop(w, list[1..], Behind(down), beyond)
    else if |list| == 1 then WalkStop(w, beyond, down)
    else MembersStop(w, list[1..], down, beyond)
  }

  // ---------- the cursor walks so ----------

  function DownAt(unavailable: seq<string>, c: Cursor): seq<string>
    requires unavailable != [] ==> c.unavailable < |unavailable|
  {
    if unavailable == [] then [] else unavailable[c.unavailable..]
  }

  /** The index into a set is zero unless the cursor is inside one. */
  predicate Inside(entries: seq<FailoverPolicy>, c: Cursor) {
    c.clusterSet == 0 || (c.failover < |entries| && entries[c.failover].OfClusterSet?)
  }

  /** The rest of the walk from the cursor on. */
  function WalkFrom(w: World, entries: seq<FailoverPolicy>, unavailable: seq<string>, c: Cursor): seq<string>
    requires Readable(w) && (unavailable != [] ==> c.unavailable < |unavailable|)
  {
    if c.failover >= |entries| then []
    else if entries[c.failover].OfClusterSet? then
      var list := SetList(w, entries[c.failover].name);
      if c.clusterSet >= |list| then []
      else WalkMembers(w, list[c.clusterSet..], DownAt(unavailable, c), entries[c.failover + 1..])
    else Walk(w, entries[c.failover..], DownAt(unavailable, c))
  }

  /** Where the rest of the walk stops. */
  function StopFrom(w: World, entries: seq<FailoverPolicy>, unavailable: seq<string>, c: Cursor): Advanced
    requires Readable(w) && (unavailable != [] ==> c.unavailable < |unavailable|)
  {
    if c.failover >= |entries| then IndexPanic
    else if entries[c.failover].OfClusterSet? && entries[c.failover].name in w.sets then
      var list := SetList(w, entries[c.failover].name);
      if c.clusterSet >= |list| then IndexPanic
      else MembersStop(w, list[c.clusterSet..], DownAt(unavailable, c), entries[c.failover + 1..])
    else WalkStop(w, entries[c.failover..], DownAt(unavailable, c))
  }

  lemma WalkFresh(w: World, entries: seq<FailoverPolicy>, unavailable: seq<string>, c: Cursor)
    requires Readable(w) && (unavailable != [] ==> c.unavailable < |unavailable|)
    requires c.failover <= |entries| && c.clusterSet == 0
    ensures WalkFrom(w, entries, unavailable, c) == Walk(w, entries[c.failover..], DownAt(unavailable, c))
    ensures StopFrom(w, entries, unavailable, c) == WalkStop(w, entries[c.failover..], DownAt(unavailable, c))
  {
    if c.failover < |entries| {
      assert entries[c.failover..][0] == entries[c.failover];
      assert entries[c.failover..][1..] == entries[c.failover + 1..];
      var list := SetList(w, entries[c.failover].name);
      assert list[0..] == list;
    }
  }

  lemma DownBehind(unavailable: seq<string>, c: Cursor)
    requires unavailable != [] ==> c.unavailable < |unavailable|
    ensures var t := SkipOne(unavailable, c);
      && (unavailable != [] ==> t.unavailable < |unavailable|)
      && DownAt(unavailable, t) == Behind(DownAt(unavailable, c))
  {
  }

  /** A skipped candidate adds nothing to the walk. */
  lemma WalkSkips(w: World, entries: seq<FailoverPolicy>, unavailable: seq<string>, c: Cursor)
    requires Readable(w) && unavailable != [] && c.unavailable < |unavailable| && Inside(entries, c)
    requires OnCandidate(w, entries, c) && Candidate(w, entries, c) == unavailable[c.unavailable]
    ensures var t := SkipOne(unavailable, Past(entries, c));
      && t.unavailable < |unavailable| && Inside(entries, t)
      && WalkFrom(w, entries, unavailable, c) == WalkFrom(w, entries, unavailable, t)
      && StopFrom(w, entries, unavailable, c) == StopFrom(w, entries, unavailable, t)
  {
    var t := SkipOne(unavailable, Past(entries, c));
    DownBehind(unavailable, Past(entries, c));
    if entries[c.failover].OfCluster? {
      WalkFresh(w, entries, unavailable, c);
      WalkFresh(w, entries, unavailable, t);
      assert entries[c.failover..][1..] == entries[c.failover + 1..];
    } else {
      var list := SetList(w, entries[c.failover].name);
      assert list[c.clusterSet..][1..] == list[c.clusterSet + 1..];
    }
  }

  /** A placed candidate is the first of the walk. */
  lemma WalkPlaces(w: World, entries: seq<FailoverPolicy>, unavailable: seq<string>, c: Cursor)
    requires Readable(w) && (unavailable != [] ==> c.unavailable < |unavailable|) && Inside(entries, c)
    requires OnCandidate(w, entries, c)
    requires unavailable == [] || Candidate(w, entries, c) != unavailable[c.unavailable]
    ensures var t := PlacedAt(w, entries, c);
      && t.unavailable == c.unavailable && Inside(entries, t)
      && WalkFrom(w, entries, unavailable, c) == [Candidate(w, entries, c)] + WalkFrom(w, entries, unavailable, t)
      && StopFrom(w, entries, unavailable, c) == StopFrom(w, entries, unavailable, t)
  {
    var t := PlacedAt(w, entries, c);
    if entries[c.failover].OfCluster? {
      WalkFresh(w, entries, unavailable, c);
      WalkFresh(w, entries, unavailable, t);
      assert entries[c.failover..][1..] == entries[c.failover + 1..];
    } else {
      var list := SetList(w, entries[c.failover].name);
      assert list[c.clusterSet..][1..] == list[c.clusterSet + 1..];
      if c.clusterSet == |list| - 1 {
        WalkFresh(w, entries, unavailable, t);
      }
    }
  }

  lemma WalkStuck(w: World, entries: seq<FailoverPolicy>, unavailable: seq<string>, c: Cursor)
    requires Readable(w) && (unavailable != [] ==> c.unavailable < |unavailable|) && !OnCandidate(w, entries, c)
    ensures WalkFrom(w, entries, unavailable, c) == []
    ensures StopFrom(w, entries, unavailable, c) == Stuck(w, entries, c)
  {
    if c.failover < |entries| {
      assert entries[c.failover..][0] == entries[c.failover];
    }
  }

  /** One call takes the head of the walk, and fails exactly when nothing is left of it. */
  ghost predicate TakesHead(w: World, entries: seq<FailoverPolicy>, unavailable: seq<string>, walk: seq<string>,
                            stop: Advanced, a: Advanced)
    requires Readable(w)
  {
    if a.Placed? then
      && walk != [] && a.name == walk[0] && Inside(entries, a.cursor)
      && (unavailable != [] ==> a.cursor.unavailable < |unavailable|)
      && WalkFrom(w, entries, unavailable, a.cursor) == walk[1..]
      && StopFrom(w, entries, unavailable, a.cursor) == stop
    else walk == [] && a == stop
  }

  lemma {:induction false} AdvanceWalks(w: World, entries: seq<FailoverPolicy>, unavailable: seq<string>, c: Cursor)
    requires Readable(w) && (unavailable != [] ==> c.unavailable < |unavailable|) && Inside(entries, c)
    ensures TakesHead(w, entries, unavailable, WalkFrom(w, entries, unavailable, c),
      StopFrom(w, entries, unavailable, c), Advance(w, entries, unavailable, c))
    decreases |entries| - c.failover, |EntryList(w, entries, c)| - c.clusterSet
  {
    hide WalkFrom, StopFrom, Candidate, Advance;
    AdvanceStep(w, entries, unavailable, c);
    if !OnCandidate(w, entries, c) {
      WalkStuck(w, entries, unavailable, c);
    } else if unavailable == [] || Candidate(w, entries, c) != unavailable[c.unavailable] {
      WalkPlaces(w, entries, unavailable, c);
    } else {
      WalkSkips(w, entries, unavailable, c);
      AdvanceWalks(w, entries, unavailable, SkipOne(unavailable, Past(entries, c)));
    }
  }

  lemma StartIsInside(entries: seq<FailoverPolicy>)
    ensures Inside(entries, START)
  {
  }

  /** After k calls. */
  ghost predicate HasWalked(w: World, entries: seq<FailoverPolicy>, unavailable: seq<string>, k: nat, r: Run)
    requires Readable(w)
  {
    var walk := Walk(w, entries, unavailable);
    && (r.ok <==> k <= |walk|)
    && (unavailable != [] ==> r.cursor.unavailable < |unavailable|)
    && (!r.ok ==> Advance(w, entries, unavailable, r.cursor) == WalkStop(w, entries, unavailable))
    && (r.ok ==>
      && r.names == walk[..k] && Inside(entries, r.cursor)
      && WalkFrom(w, entries, unavailable, r.cursor) == walk[k..]
      && StopFrom(w, entries, unavailable, r.cursor) == WalkStop(w, entries, unavailable))
  }

  /** For every list of unavailable names, the first k calls succeed exactly for the k up to the length of the walk,
      and then place its first k names; the first one that fails does so where the walk stops. */
  lemma {:induction false} CallsWalk(w: World, entries: seq<FailoverPolicy>, unavailable: seq<string>, k: nat)
    requires Readable(w)
    ensures HasWalked(w, entries, unavailable, k, Calls(w, entries, unavailable, k))
  {
    hide Walk, WalkFrom, WalkStop, StopFrom, Advance, Inside;
    var walk := Walk(w, entries, unavailable);
    if k == 0 {
      StartIsInside(entries);
      WalkFresh(w, entries, unavailable, START);
      assert entries[0..] == entries && unavailable[0..] == unavailable && walk[0..] == walk;
    } else {
      CallsWalk(w, entries, unavailable, k - 1);
      var before := Calls(w, entries, unavailable, k - 1);
      if before.ok {
        AdvanceWalks(w, entries, unavailable, before.cursor);
        assert walk[k - 1..] != [] ==> walk[k - 1..][1..] == walk[k..] && walk[..k] == walk[..k - 1] + [walk[k - 1]];
      }
    }
  }

  /** On the check's own list the walk is the filter exactly if no candidate within reach is shadowed; it never places
      an offline cluster, nor more than there are online candidates within reach. */
  lemma WalkIsFilter(w: World, entries: seq<FailoverPolicy>)
    requires Readable(w)
    ensures var walk, online := Walk(w, entries, Unavailable(w, entries)), OnlineOf(w, Reach(w, entries));
      && (Unshadowed(w, entries) <==> walk == online)
      && (!Unshadowed(w, entries) ==> |walk| < |online|)
      && forall i :: 0 <= i < |walk| ==> Online(w, walk[i])
  {
    hide Walk, OnlineOf, Reach, Unavailable, Unshadowed, Online;
    WalkedAreOnline(w, entries);
    if Unshadowed(w, entries) {
      WalkUnshadowed(w, entries);
    } else {
      ShadowedFails(w, entries);
      WalkEnds(w, entries, Unavailable(w, entries), |OnlineOf(w, Reach(w, entries))|);
    }
  }

  /** How many calls succeed. */
  lemma WalkEnds(w: World, entries: seq<FailoverPolicy>, unavailable: seq<string>, k: nat)
    requires Readable(w)
    ensures var r, walk := Calls(w, entries, unavailable, k), Walk(w, entries, unavailable);
      && (r.ok <==> k <= |walk|) && (r.ok ==> r.names == walk[..k])
      && (!r.ok ==> Advance(w, entries, unavailable, r.cursor) == WalkStop(w, entries, unavailable))
  {
    CallsWalk(w, entries, unavailable, k);
  }

  lemma WalkedAreOnline(w: World, entries: seq<FailoverPolicy>)
    requires Readable(w)
    ensures var walk := Walk(w, entries, Unavailable(w, entries)); forall i :: 0 <= i < |walk| ==> Online(w, walk[i])
  {
    hide *;
    var walk := Walk(w, entries, Unavailable(w, entries));
    WalkEnds(w, entries, Unavailable(w, entries), |walk|);
    PlacedAreOnline(w, entries, |walk|);
    assert walk[..|walk|] == walk;
  }

  lemma WalkUnshadowed(w: World, entries: seq<FailoverPolicy>)
    requires Readable(w) && Unshadowed(w, entries)
    ensures Walk(w, entries, Unavailable(w, entries)) == OnlineOf(w, Reach(w, entries))
  {
    hide Walk, OnlineOf, Reach, Unavailable, Unshadowed, Online, Calls;
    var walk, online := Walk(w, entries, Unavailable(w, entries)), OnlineOf(w, Reach(w, entries));
    CursorRefinesFilter(w, entries);
    WalkEnds(w, entries, Unavailable(w, entries), |walk|);
    WalkEnds(w, entries, Unavailable(w, entries), |online|);
    assert walk[..|walk|] == walk && online[..|online|] == online;
  }
}
