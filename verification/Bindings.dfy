/** Checking the clusters of a policy and replacing the offline ones in its binding. */
module Bindings {
  import opened Snapshot
  import opened Failover
  import opened FailoverWalk

  // ---------- the check ----------

  datatype Check =
    | Checked(failIndex: seq<nat>, unavailable: seq<string>)
    | Rejected

  /** The positions from j on whose cluster is offline. */
  function DownPositions(w: World, primary: seq<string>, j: nat): (r: seq<nat>)
    requires j <= |primary|
    decreases |primary| - j
  {
    if j == |primary| then []
    else (if Online(w, primary[j]) then [] else [j]) + DownPositions(w, primary, j + 1)
  }

  /** checkClusters on the clusters the policy stands for. */
  function CheckOf(w: World, primary: seq<string>, failover: seq<FailoverPolicy>): Check
    requires Readable(w)
  {
    var down := DownPositions(w, primary, 0);
    if |failover| > 0 && |down| > 0 then
      if |down| > FailoverCount(w, failover) then Rejected else Checked(down, Unavailable(w, failover))
    else if |down| > 0 then Rejected
    else Checked([], [])
  }

  // ---------- generating the cluster names of one resource ----------

  datatype Bound =
    | Names(names: seq<string>)
    | GetFailed
    | Panicked
    | NeverReturns

  /** The loop of the generateBinding functions over the primary clusters, from position j. */
  function BindFrom(w: World, primary: seq<string>, failIndex: seq<nat>, failover: seq<FailoverPolicy>,
                    unavailable: seq<string>, j: nat, bound: seq<string>, c: Cursor): Bound
    requires Readable(w) && j <= |primary| && (unavailable != [] ==> c.unavailable < |unavailable|)
    decreases |primary| - j
  {
    if j == |primary| then Names(bound)
    else if c.done < |failIndex| && j == failIndex[c.done] then
      AdvanceCounts(w, failover, unavailable, c);
      match Advance(w, failover, unavailable, c)
      case Placed(name, cursor) => BindFrom(w, primary, failIndex, failover, unavailable, j + 1, bound + [name], cursor)
      case NotFound => GetFailed
      case IndexPanic => Panicked
      case Spins => NeverReturns
    else BindFrom(w, primary, failIndex, failover, unavailable, j + 1, bound + [primary[j]], c)
  }

  function Bind(w: World, primary: seq<string>, failIndex: seq<nat>, failover: seq<FailoverPolicy>,
                unavailable: seq<string>): Bound
    requires Readable(w)
  {
    BindFrom(w, primary, failIndex, failover, unavailable, 0, [], START)
  }

  // ---------- what a binding should hold ----------

  /** How many of the first j primary clusters are offline. */
  function Rank(w: World, primary: seq<string>, j: nat): (r: nat)
    requires j <= |primary|
    ensures r <= j
  {
    if j == 0 then 0 else Rank(w, primary, j - 1) + if Online(w, primary[j - 1]) then 0 else 1
  }

  lemma {:induction false} RankCounts(w: World, primary: seq<string>, j: nat)
    requires j <= |primary|
    ensures Rank(w, primary, j) + |DownPositions(w, primary, j)| == |DownPositions(w, primary, 0)|
  {
    if j > 0 {
      RankCounts(w, primary, j - 1);
    }
  }

  /** Position by position up to j: an online primary stays, the k-th offline one is the k-th candidate. */
  predicate ReplacesTo(w: World, primary: seq<string>, candidates: seq<string>, j: nat, names: seq<string>) {
    && |names| == j <= |primary|
    && forall i :: 0 <= i < j ==>
         if Online(w, primary[i]) then names[i] == primary[i]
         else Rank(w, primary, i) < |candidates| && names[i] == candidates[Rank(w, primary, i)]
  }

  predicate Replaces(w: World, primary: seq<string>, candidates: seq<string>, names: seq<string>) {
    ReplacesTo(w, primary, candidates, |primary|, names)
  }

  lemma DownIsOrdered(w: World, primary: seq<string>, j: nat)
    requires j <= |primary|
    ensures forall k :: 0 <= k < |DownPositions(w, primary, j)| ==> DownPositions(w, primary, j)[k] >= j
    decreases |primary| - j
  {
    if j < |primary| {
      DownIsOrdered(w, primary, j + 1);
    }
  }

  lemma NextIsDown(w: World, primary: seq<string>, failIndex: seq<nat>, j: nat, done: nat)
    requires j < |primary| && done <= |failIndex| && failIndex[done..] == DownPositions(w, primary, j)
    ensures (done < |failIndex| && j == failIndex[done]) <==> !Online(w, primary[j])
    ensures !Online(w, primary[j]) ==> failIndex[done + 1..] == DownPositions(w, primary, j + 1)
    ensures Online(w, primary[j]) ==> failIndex[done..] == DownPositions(w, primary, j + 1)
  {
    DownIsOrdered(w, primary, j + 1);
    assert done < |failIndex| ==> failIndex[done] == failIndex[done..][0];
    if !Online(w, primary[j]) {
      assert failIndex[done + 1..] == failIndex[done..][1..];
    }
  }

  lemma ExtendNames(w: World, primary: seq<string>, before: seq<string>, after: seq<string>, j: nat,
                    names: seq<string>, name: string)
    requires ReplacesTo(w, primary, before, j, names) && before <= after && j < |primary|
    requires if Online(w, primary[j]) then name == primary[j]
             else Rank(w, primary, j) < |after| && name == after[Rank(w, primary, j)]
    ensures ReplacesTo(w, primary, after, j + 1, names + [name])
  {
  }

  // ---------- the loop makes one call per offline primary ----------

  lemma {:induction false} NotOkStays(w: World, failover: seq<FailoverPolicy>, unavailable: seq<string>, k: nat, n: nat)
    requires Readable(w) && k <= n && !Calls(w, failover, unavailable, k).ok
    ensures Calls(w, failover, unavailable, n) == Calls(w, failover, unavailable, k)
    decreases n
  {
    if k < n {
      NotOkStays(w, failover, unavailable, k, n - 1);
    }
  }

  /** At position j the cursor has answered one call for every offline primary before. */
  ghost predicate Halfway(w: World, primary: seq<string>, failIndex: seq<nat>, failover: seq<FailoverPolicy>,
                          unavailable: seq<string>, j: nat, bound: seq<string>, r: Run)
    requires Readable(w)
  {
    && j <= |primary| && r == Calls(w, failover, unavailable, Rank(w, primary, j)) && r.ok
    && r.cursor.done == Rank(w, primary, j) <= |failIndex| && failIndex[r.cursor.done..] == DownPositions(w, primary, j)
    && ReplacesTo(w, primary, r.names, j, bound)
  }

  /** The binding fails in the way the call does. */
  predicate FailsAs(b: Bound, a: Advanced) {
    && (a.NotFound? ==> b.GetFailed?) && (a.IndexPanic? ==> b.Panicked?) && (a.Spins? ==> b.NeverReturns?)
  }

  /** What is generated is the primary clusters with the names of the calls in place of the offline ones, if
      no call fails. */
  ghost predicate BoundByCalls(w: World, primary: seq<string>, failover: seq<FailoverPolicy>, unavailable: seq<string>,
                               r: Run, b: Bound)
    requires Readable(w) && (unavailable != [] ==> r.cursor.unavailable < |unavailable|)
  {
    && (b.Names? <==> r.ok) && (b.Names? ==> Replaces(w, primary, r.names, b.names))
    && (!r.ok ==> FailsAs(b, Advance(w, failover, unavailable, r.cursor)))
  }

  lemma OnlineStep(w: World, primary: seq<string>, failIndex: seq<nat>, failover: seq<FailoverPolicy>,
                   unavailable: seq<string>, j: nat, bound: seq<string>, r: Run)
    requires Readable(w) && j < |primary| && Online(w, primary[j])
    requires Halfway(w, primary, failIndex, failover, unavailable, j, bound, r)
    ensures Halfway(w, primary, failIndex, failover, unavailable, j + 1, bound + [primary[j]], r)
    ensures BindFrom(w, primary, failIndex, failover, unavailable, j, bound, r.cursor)
      == BindFrom(w, primary, failIndex, failover, unavailable, j + 1, bound + [primary[j]], r.cursor)
  {
    NextIsDown(w, primary, failIndex, j, r.cursor.done);
    ExtendNames(w, primary, r.names, r.names, j, bound, primary[j]);
  }

  /** The call for the next offline primary. */
  lemma NextCall(w: World, failover: seq<FailoverPolicy>, unavailable: seq<string>, k: nat, r: Run)
    requires Readable(w) && r == Calls(w, failover, unavailable, k) && r.ok
    ensures unavailable != [] ==> r.cursor.unavailable < |unavailable|
    ensures var next, a := Calls(w, failover, unavailable, k + 1), Advance(w, failover, unavailable, r.cursor);
      && next.ok == a.Placed? && |r.names| == k == r.cursor.done
      && (!next.ok ==> next.cursor == r.cursor)
      && (next.ok ==> next.names == r.names + [a.name] && next.cursor == a.cursor && a.cursor.done == k + 1)
  {
    CallsCount(w, failover, unavailable, k);
    AdvanceCounts(w, failover, unavailable, r.cursor);
  }

  lemma BindsOne(w: World, primary: seq<string>, failIndex: seq<nat>, failover: seq<FailoverPolicy>,
                 unavailable: seq<string>, j: nat, bound: seq<string>, c: Cursor)
    requires Readable(w) && j < |primary| && (unavailable != [] ==> c.unavailable < |unavailable|)
    requires c.done < |failIndex| && j == failIndex[c.done]
    ensures var a := Advance(w, failover, unavailable, c);
      var b := BindFrom(w, primary, failIndex, failover, unavailable, j, bound, c);
      if a.Placed? then
        && (unavailable != [] ==> a.cursor.unavailable < |unavailable|)
        && b == BindFrom(w, primary, failIndex, failover, unavailable, j + 1, bound + [a.name], a.cursor)
      else
        !b.Names? && FailsAs(b, a)
  {
    hide Advance;
    AdvanceCounts(w, failover, unavailable, c);
  }

  lemma OfflineStep(w: World, primary: seq<string>, failIndex: seq<nat>, failover: seq<FailoverPolicy>,
                    unavailable: seq<string>, j: nat, bound: seq<string>, r: Run)
    returns (next: Run, longer: seq<string>)
    requires Readable(w) && j < |primary| && !Online(w, primary[j])
    requires unavailable != [] ==> r.cursor.unavailable < |unavailable|
    requires Halfway(w, primary, failIndex, failover, unavailable, j, bound, r)
    ensures Rank(w, primary, j + 1) <= |failIndex| && next == Calls(w, failover, unavailable, Rank(w, primary, j + 1))
    ensures unavailable != [] ==> next.cursor.unavailable < |unavailable|
    ensures var b := BindFrom(w, primary, failIndex, failover, unavailable, j, bound, r.cursor);
      if next.ok then
        && Halfway(w, primary, failIndex, failover, unavailable, j + 1, longer, next)
        && b == BindFrom(w, primary, failIndex, failover, unavailable, j + 1, longer, next.cursor)
      else
        !b.Names? && next.cursor == r.cursor && FailsAs(b, Advance(w, failover, unavailable, r.cursor))
  {
    hide Advance, Calls, Online, DownPositions, ReplacesTo, Replaces, BindFrom, FailsAs;
    NextIsDown(w, primary, failIndex, j, r.cursor.done);
    BindsOne(w, primary, failIndex, failover, unavailable, j, bound, r.cursor);
    NextCall(w, failover, unavailable, Rank(w, primary, j), r);
    next, longer := Calls(w, failover, unavailable, Rank(w, primary, j + 1)), bound;
    if next.ok {
      var name := Advance(w, failover, unavailable, r.cursor).name;
      longer := bound + [name];
      ExtendNames(w, primary, r.names, next.names, j, bound, name);
    }
  }

  lemma {:induction false} BindFromIsCalls(w: World, primary: seq<string>, failIndex: seq<nat>,
                                           failover: seq<FailoverPolicy>,
                                           unavailable: seq<string>, j: nat, bound: seq<string>, r: Run)
    requires Readable(w) && j <= |primary| && (unavailable != [] ==> r.cursor.unavailable < |unavailable|)
    requires Halfway(w, primary, failIndex, failover, unavailable, j, bound, r)
    ensures BoundByCalls(w, primary, failover, unavailable, Calls(w, failover, unavailable, |failIndex|),
                         BindFrom(w, primary, failIndex, failover, unavailable, j, bound, r.cursor))
    decreases |primary| - j
  {
    hide Advance, Calls, Online, DownPositions, ReplacesTo, Replaces, Halfway, FailsAs, Rank, BindFrom;
    if j == |primary| {
      BindEnds(w, primary, failIndex, failover, unavailable, bound, r);
    } else if Online(w, primary[j]) {
      OnlineStep(w, primary, failIndex, failover, unavailable, j, bound, r);
      BindFromIsCalls(w, primary, failIndex, failover, unavailable, j + 1, bound + [primary[j]], r);
    } else {
      var next, longer := OfflineStep(w, primary, failIndex, failover, unavailable, j, bound, r);
      if next.ok {
        BindFromIsCalls(w, primary, failIndex, failover, unavailable, j + 1, longer, next);
      } else {
        NotOkStays(w, failover, unavailable, Rank(w, primary, j + 1), |failIndex|);
      }
    }
  }

  lemma BindEnds(w: World, primary: seq<string>, failIndex: seq<nat>, failover: seq<FailoverPolicy>,
                 unavailable: seq<string>, bound: seq<string>, r: Run)
    requires Readable(w) && Halfway(w, primary, failIndex, failover, unavailable, |primary|, bound, r)
    ensures r == Calls(w, failover, unavailable, |failIndex|) && Replaces(w, primary, r.names, bound)
    ensures BoundByCalls(w, primary, failover, unavailable, r,
                         BindFrom(w, primary, failIndex, failover, unavailable, |primary|, bound, r.cursor))
  {
    assert failIndex[r.cursor.done..] == [];
  }

  /** The cluster names of a resource are the primary ones with the answers of one index model's calls, in
      order, in place of the offline ones; there are none exactly if one of these calls fails. */
  lemma BindIsCalls(w: World, primary: seq<string>, failover: seq<FailoverPolicy>, unavailable: seq<string>)
    requires Readable(w)
    ensures var failIndex := DownPositions(w, primary, 0);
      BoundByCalls(w, primary, failover, unavailable, Calls(w, failover, unavailable, |failIndex|),
                   Bind(w, primary, failIndex, failover, unavailable))
  {
    var failIndex, start := DownPositions(w, primary, 0), Run([], START, true);
    assert failIndex[0..] == failIndex && start == Calls(w, failover, unavailable, 0);
    BindFromIsCalls(w, primary, failIndex, failover, unavailable, 0, [], start);
  }

  // ---------- main result ----------

  /** Whatever the calls answer is online, and so is what stays. */
  lemma BoundAreOnline(w: World, primary: seq<string>, candidates: seq<string>, names: seq<string>)
    requires Replaces(w, primary, candidates, names)
    requires forall i :: 0 <= i < |candidates| ==> Online(w, candidates[i])
    ensures forall j :: 0 <= j < |names| ==> Online(w, names[j])
  {
  }

  lemma ReplacesByMore(w: World, primary: seq<string>, few: seq<string>, many: seq<string>, names: seq<string>)
    requires Replaces(w, primary, few, names) && few <= many
    ensures Replaces(w, primary, many, names)
  {
  }

  /** The names of a resource are the primary ones with those of the walk in place of the offline ones, if
      there are enough. */
  lemma BindIsWalk(w: World, primary: seq<string>, failover: seq<FailoverPolicy>, unavailable: seq<string>)
    requires Readable(w)
    ensures var failIndex, walk := DownPositions(w, primary, 0), Walk(w, failover, unavailable);
      var b := Bind(w, primary, failIndex, failover, unavailable);
      && (b.Names? <==> |failIndex| <= |walk|) && (b.Names? ==> Replaces(w, primary, walk, b.names))
      && (!b.Names? ==> FailsAs(b, WalkStop(w, failover, unavailable)))
  {
    var failIndex := DownPositions(w, primary, 0);
    BindIsCalls(w, primary, failover, unavailable);
    WalkEnds(w, failover, unavailable, |failIndex|);
    var b := Bind(w, primary, failIndex, failover, unavailable);
    if b.Names? {
      ReplacesByMore(w, primary, Calls(w, failover, unavailable, |failIndex|).names, Walk(w, failover, unavailable),
        b.names);
    }
  }

  lemma {:induction false} DownCount(w: World, primary: seq<string>, j: nat)
    requires j <= |primary|
    ensures |DownPositions(w, primary, j)| == |OfflineOf(w, primary[j..])|
    decreases |primary| - j
  {
    if j < |primary| {
      DownCount(w, primary, j + 1);
      assert primary[j..][0] == primary[j] && primary[j..][1..] == primary[j + 1..];
    }
  }

  lemma {:induction false} DownPositionsAre(w: World, primary: seq<string>, j: nat)
    requires j <= |primary|
    ensures var down := DownPositions(w, primary, j);
      && (forall k :: 0 <= k < |down| ==> j <= down[k] < |primary| && !Online(w, primary[down[k]]))
      && (forall i :: j <= i < |primary| && !Online(w, primary[i]) ==> i in down)
      && (forall k, l :: 0 <= k < l < |down| ==> down[k] < down[l])
    decreases |primary| - j
  {
    if j < |primary| {
      DownPositionsAre(w, primary, j + 1);
    }
  }

  /** The check accepts exactly if there are as many online failover clusters as primary ones that are offline; it
      then lists the positions of these, and what it found unavailable if there are any. */
  lemma CheckAccepts(w: World, primary: seq<string>, failover: seq<FailoverPolicy>)
    requires Readable(w)
    ensures var check, offline := CheckOf(w, primary, failover), OfflineOf(w, primary);
      && (check.Checked? <==> |offline| <= |OnlineOf(w, Flat(w, failover))|)
      && (check.Checked? ==>
        && |check.failIndex| == |offline|
        && check.unavailable == (if offline == [] then [] else Unavailable(w, failover))
        && (forall i :: i in check.failIndex <==> 0 <= i < |primary| && !Online(w, primary[i]))
        && (forall k, l :: 0 <= k < l < |check.failIndex| ==> check.failIndex[k] < check.failIndex[l]))
  {
    assert primary[0..] == primary;
    DownCount(w, primary, 0);
    DownPositionsAre(w, primary, 0);
    CheckIsFilter(w, failover);
  }

  /** Bindings are sound on one snapshot. Whenever names are generated they are as many as the primary
      clusters, an online primary keeps its position, and every bound cluster is online. Names are generated
      exactly if the walk over the candidates has a name for every offline primary, and the k-th
      offline one is replaced by the k-th of them. If no candidate within reach is shadowed these are the online
      candidates within reach, and with nothing in the cursor's way there are always enough of them. If one is
      shadowed, fewer offline clusters can be replaced than there are candidates within reach. */
  lemma BindingSound(w: World, primary: seq<string>, failover: seq<FailoverPolicy>)
    requires Readable(w) && CheckOf(w, primary, failover).Checked?
    ensures var check := CheckOf(w, primary, failover);
      var b, online := Bind(w, primary, check.failIndex, failover, check.unavailable), OnlineOf(w, Reach(w, failover));
      var walk := Walk(w, failover, check.unavailable);
      && (b.Names? ==> |b.names| == |primary| && forall j :: 0 <= j < |primary| ==>
            Online(w, b.names[j]) && (Online(w, primary[j]) ==> b.names[j] == primary[j]))
      && (b.Names? <==> |check.failIndex| <= |walk|) && (b.Names? ==> Replaces(w, primary, walk, b.names))
      && (!b.Names? ==> FailsAs(b, WalkStop(w, failover, check.unavailable)))
      && (Unshadowed(w, failover) ==> (b.Names? <==> |check.failIndex| <= |online|))
      && (Unshadowed(w, failover) && b.Names? ==> Replaces(w, primary, online, b.names))
      && (!Unshadowed(w, failover) && check.failIndex != [] && |check.failIndex| == |online| ==> !b.Names?)
      && (Passable(w, failover) ==> b.Names?)
  {
    var check := CheckOf(w, primary, failover);
    BindIsWalk(w, primary, failover, check.unavailable);
    BindIsCalls(w, primary, failover, check.unavailable);
    if check.failIndex != [] {
      CallsSound(w, failover, |check.failIndex|);
    }
    var b, r := Bind(w, primary, check.failIndex, failover, check.unavailable),
                Calls(w, failover, check.unavailable, |check.failIndex|);
    if b.Names? {
      BoundAreOnline(w, primary, r.names, b.names);
      if Unshadowed(w, failover) {
        ReplacesByMore(w, primary, r.names, OnlineOf(w, Reach(w, failover)), b.names);
      }
    }
  }

  /** A name list that a binding may carry. */
  predicate Available(w: World, primary: seq<string>, names: seq<string>) {
    && |names| == |primary|
    && forall j :: 0 <= j < |primary| ==>
         Online(w, names[j]) && (Online(w, primary[j]) ==> names[j] == primary[j])
  }

  /** When the check accepts: names are generated exactly if the walk has one for every offline primary, always when
      nothing is in the cursor's way, and otherwise it fails where the walk stops. */
  lemma GeneratedExactly(w: World, primary: seq<string>, failover: seq<FailoverPolicy>)
    requires Readable(w) && CheckOf(w, primary, failover).Checked?
    ensures var check := CheckOf(w, primary, failover);
      var b := Bind(w, primary, check.failIndex, failover, check.unavailable);
      && (b.Names? <==> |OfflineOf(w, primary)| <= |Walk(w, failover, check.unavailable)|)
      && (b.Names? ==> Available(w, primary, b.names))
      && (!b.Names? ==> FailsAs(b, WalkStop(w, failover, check.unavailable)))
      && (Passable(w, failover) ==> b.Names?)
  {
    CheckAccepts(w, primary, failover);
    BindingSound(w, primary, failover);
  }

  /** What the cursor's results say about n calls. */
  lemma CallsSound(w: World, failover: seq<FailoverPolicy>, n: nat)
    requires Readable(w)
    ensures var r, online := Calls(w, failover, Unavailable(w, failover), n), OnlineOf(w, Reach(w, failover));
      && (forall i :: 0 <= i < |r.names| ==> Online(w, r.names[i]))
      && (Unshadowed(w, failover) ==> (r.ok <==> n <= |online|) && (r.ok ==> r.names <= online))
      && (!Unshadowed(w, failover) && n == |online| ==> !r.ok)
      && (Passable(w, failover) && n <= FailoverCount(w, failover) ==> r.ok)
  {
    PlacedAreOnline(w, failover, n);
    CursorRefinesFilter(w, failover);
    if !Unshadowed(w, failover) {
      ShadowedFails(w, failover);
    }
  }
}
