/** The weighted round robin that hands out the remainder, one replica at a time.

    The loops of the scheduler are functions on `State`, so that whole runs can be reasoned
    about; the methods of WeightedScheduler are proved equal to them. `Rounds` is the loop as
    written, which looks at the remainder only between two sweeps over the policies. `Meant`
    is the same loop leaving a sweep as soon as the remainder is used up. */
module RoundRobin {
  import opened Sums
  import opened Policies

  datatype State = State(replicas: seq<int>, list: seq<SchedulePolicy>, idx: int, add: int)

  /** Where a run that watches the remainder stopped: the state, and how many policies of the
      current sweep it had looked at. */
  datatype Stop = Stop(state: State, next: nat)

  predicate Matches(p: SchedulePolicy, entry: SchedulePolicy) {
    p.weight == entry.weight && p.name == entry.name
  }

  predicate Listed(p: SchedulePolicy, list: seq<SchedulePolicy>) {
    exists q :: 0 <= q < |list| && Matches(p, list[q])
  }

  /** No two policies are the same to the round robin. */
  predicate Distinct(list: seq<SchedulePolicy>) {
    forall i, j :: 0 <= i < j < |list| ==> !Matches(list[i], list[j])
  }

  predicate SortedByWeight(list: seq<SchedulePolicy>) {
    forall i, j :: 0 <= i < j < |list| ==> list[i].weight >= list[j].weight
  }

  /** Any result sort.Slice may produce: it is not stable, so equal weights come in any order. */
  predicate IsSortOf(list: seq<SchedulePolicy>, policies: seq<SchedulePolicy>) {
    multiset(list) == multiset(policies) && SortedByWeight(list)
  }

  function RemoveAt<T>(s: seq<T>, i: nat): (r: seq<T>)
    requires i < |s|
    ensures |r| == |s| - 1
    ensures forall k :: 0 <= k < |r| ==> r[k] == if k < i then s[k] else s[k + 1]
  {
    s[..i] + s[i + 1..]
  }

  lemma TwiceCounted<T>(s: seq<T>, i: nat, j: nat)
    requires i < j < |s| && s[i] == s[j]
    ensures multiset(s)[s[i]] >= 2
  {
    assert s == s[..i] + [s[i]] + s[i + 1..j] + [s[j]] + s[j + 1..];
  }

  /** The loop's own invariant: the cursor is on the list, every entry of the list is a policy,
      and no policy is past its bound. */
  ghost predicate Wf(policies: seq<SchedulePolicy>, up: bool, s: State) {
    && |s.replicas| == |policies|
    && (s.list == [] ==> s.idx == 0)
    && (s.list != [] ==> 0 <= s.idx < |s.list|)
    && (forall q :: 0 <= q < |s.list| ==> s.list[q] in policies)
    && HaveRoom(policies, s.replicas, up)
  }

  /** What the loop body does at policy j: grant one replica and advance, or drop a saturated
      entry, or nothing when the cursor is on another policy. */
  function Visit(policies: seq<SchedulePolicy>, up: bool, s: State, j: nat): State
    requires j < |policies| && |s.replicas| == |policies| && 0 <= s.idx < |s.list|
  {
    if !Matches(policies[j], s.list[s.idx]) then s
    else if Room(policies[j], s.replicas[j], up) > 0 then
      State(s.replicas[j := Move(s.replicas[j], 1, up)], s.list,
            if s.idx == |s.list| - 1 then 0 else s.idx + 1, s.add - 1)
    else
      State(s.replicas, RemoveAt(s.list, s.idx), if s.idx == |s.list| - 1 then 0 else s.idx, s.add)
  }

  /** The visits still possible: every one that does something costs one. */
  ghost function Measure(policies: seq<SchedulePolicy>, up: bool, s: State): nat
    requires Wf(policies, up, s)
  {
    TotalRoom(policies, s.replicas, up) + |s.list|
  }

  /** Every count moved towards the bound or not at all. */
  ghost predicate Advanced(base: seq<int>, now: seq<int>, up: bool) {
    |base| == |now| && forall j :: 0 <= j < |base| ==> Given(base[j], now[j], up) >= 0
  }

  lemma VisitStep(policies: seq<SchedulePolicy>, up: bool, s: State, j: nat)
    requires Wf(policies, up, s) && s.list != [] && j < |policies|
    ensures var t := Visit(policies, up, s, j);
      && Wf(policies, up, t)
      && Move(Sum(t.replicas), t.add, up) == Move(Sum(s.replicas), s.add, up)
      && t.add <= s.add
      && Advanced(s.replicas, t.replicas, up)
      && Measure(policies, up, t) ==
           Measure(policies, up, s) - (if Matches(policies[j], s.list[s.idx]) then 1 else 0)
  {
    if Matches(policies[j], s.list[s.idx]) && Room(policies[j], s.replicas[j], up) > 0 {
      SumUpdate(s.replicas, j, Move(s.replicas[j], 1, up));
    }
  }

  /** One sweep over the policies from position j, as written: it ends only when the list is empty. */
  ghost function Sweep(policies: seq<SchedulePolicy>, up: bool, s: State, j: nat): (t: State)
    requires Wf(policies, up, s) && j <= |policies|
    ensures Wf(policies, up, t)
    ensures Move(Sum(t.replicas), t.add, up) == Move(Sum(s.replicas), s.add, up)
    ensures t.add <= s.add && Advanced(s.replicas, t.replicas, up)
    ensures Measure(policies, up, t) <= Measure(policies, up, s)
    ensures s.list != [] && (exists k :: j <= k < |policies| && Matches(policies[k], s.list[s.idx]))
      ==> Measure(policies, up, t) < Measure(policies, up, s)
    decreases |policies| - j
  {
    if j == |policies| || s.list == [] then s
    else
      VisitStep(policies, up, s, j);
      Sweep(policies, up, Visit(policies, up, s, j), j + 1)
  }

  /** The whole loop as written. */
  ghost function Rounds(policies: seq<SchedulePolicy>, up: bool, s: State): (t: State)
    requires Wf(policies, up, s)
    ensures Wf(policies, up, t)
    ensures Move(Sum(t.replicas), t.add, up) == Move(Sum(s.replicas), s.add, up)
    ensures t.add <= s.add && Advanced(s.replicas, t.replicas, up)
    ensures t.add == 0 || t.list == []
    decreases Measure(policies, up, s)
  {
    if s.add == 0 || s.list == [] then s
    else Rounds(policies, up, Sweep(policies, up, s, 0))
  }

  /** One sweep that leaves as soon as nothing remains. */
  ghost function StopSweep(policies: seq<SchedulePolicy>, up: bool, s: State, j: nat): (t: Stop)
    requires Wf(policies, up, s) && j <= |policies| && s.add >= 0
    ensures Wf(policies, up, t.state) && t.next <= |policies|
    ensures Move(Sum(t.state.replicas), t.state.add, up) == Move(Sum(s.replicas), s.add, up)
    ensures 0 <= t.state.add <= s.add && Advanced(s.replicas, t.state.replicas, up)
    ensures t.next == |policies| || t.state.list == [] || t.state.add == 0
    ensures Measure(policies, up, t.state) <= Measure(policies, up, s)
    decreases |policies| - j
  {
    if j == |policies| || s.list == [] || s.add == 0 then Stop(s, j)
    else
      VisitStep(policies, up, s, j);
      StopSweep(policies, up, Visit(policies, up, s, j), j + 1)
  }

  lemma StopSweepStep(policies: seq<SchedulePolicy>, up: bool, s: State, j: nat)
    requires Wf(policies, up, s) && s.list != [] && s.add > 0 && j < |policies|
    ensures var t := Visit(policies, up, s, j);
      && Wf(policies, up, t) && t.add >= 0
      && StopSweep(policies, up, s, j)
        == if t.add == 0 then Stop(t, j + 1) else StopSweep(policies, up, t, j + 1)
  {
    VisitStep(policies, up, s, j);
  }

  /** A sweep visits the entry under the cursor, so it does something. */
  lemma StopSweepFalls(policies: seq<SchedulePolicy>, up: bool, s: State)
    requires Wf(policies, up, s) && s.list != [] && s.add > 0
    ensures Measure(policies, up, StopSweep(policies, up, s, 0).state) < Measure(policies, up, s)
  {
    assert s.list[s.idx] in policies;
    var k :| 0 <= k < |policies| && policies[k] == s.list[s.idx];
    StopSweepFallsFrom(policies, up, s, 0, k);
  }

  lemma {:induction false} StopSweepFallsFrom(policies: seq<SchedulePolicy>, up: bool, s: State, j: nat, k: nat)
    requires Wf(policies, up, s) && s.list != [] && s.add > 0
    requires j <= k < |policies| && Matches(policies[k], s.list[s.idx])
    ensures Measure(policies, up, StopSweep(policies, up, s, j).state) < Measure(policies, up, s)
    decreases k - j
  {
    VisitStep(policies, up, s, j);
    if !Matches(policies[j], s.list[s.idx]) {
      StopSweepFallsFrom(policies, up, s, j + 1, k);
    }
  }

  /** The whole loop as the comment above it means it ("until they are equal"). */
  ghost function Meant(policies: seq<SchedulePolicy>, up: bool, s: State): (t: Stop)
    requires Wf(policies, up, s) && s.add >= 0
    ensures Wf(policies, up, t.state) && t.next <= |policies|
    ensures Move(Sum(t.state.replicas), t.state.add, up) == Move(Sum(s.replicas), s.add, up)
    ensures t.state.add >= 0 && Advanced(s.replicas, t.state.replicas, up)
    ensures t.state.add == 0 || t.state.list == []
    decreases Measure(policies, up, s)
  {
    if s.add == 0 || s.list == [] then Stop(s, |policies|)
    else
      var t := StopSweep(policies, up, s, 0);
      StopSweepFalls(policies, up, s);
      if t.state.add == 0 || t.state.list == [] then t else Meant(policies, up, t.state)
  }

  /** Some policy from position j on is still served in the current sweep. */
  ghost predicate ServesFrom(policies: seq<SchedulePolicy>, up: bool, s: State, j: nat)
    requires Wf(policies, up, s) && j <= |policies|
    decreases |policies| - j
  {
    if j == |policies| || s.list == [] then false
    else if Matches(policies[j], s.list[s.idx]) && Room(policies[j], s.replicas[j], up) > 0 then true
    else
      VisitStep(policies, up, s, j);
      ServesFrom(policies, up, Visit(policies, up, s, j), j + 1)
  }

  /** The remainder is used up in the middle of a sweep, and the rest of that sweep serves another policy. */
  ghost predicate Overshoots(policies: seq<SchedulePolicy>, up: bool, s: State)
    requires Wf(policies, up, s) && s.add >= 0
  {
    var stop := Meant(policies, up, s);
    stop.state.add == 0 && ServesFrom(policies, up, stop.state, stop.next)
  }

  lemma {:induction false} SweepFromStop(policies: seq<SchedulePolicy>, up: bool, s: State, j: nat)
    requires Wf(policies, up, s) && j <= |policies| && s.add >= 0
    ensures var t := StopSweep(policies, up, s, j);
      Sweep(policies, up, s, j) == Sweep(policies, up, t.state, t.next)
    decreases |policies| - j
  {
    hide *;
    if j < |policies| && s.list != [] && s.add > 0 {
      SweepStep(policies, up, s, j);
      StopSweepStep(policies, up, s, j);
      if Visit(policies, up, s, j).add > 0 {
        SweepFromStop(policies, up, Visit(policies, up, s, j), j + 1);
      }
    } else {
      StopSweepEnds(policies, up, s, j);
    }
  }

  lemma SweepStep(policies: seq<SchedulePolicy>, up: bool, s: State, j: nat)
    requires Wf(policies, up, s) && s.list != [] && j < |policies|
    ensures |s.replicas| == |policies| && 0 <= s.idx < |s.list|
    ensures Wf(policies, up, Visit(policies, up, s, j))
    ensures Sweep(policies, up, s, j) == Sweep(policies, up, Visit(policies, up, s, j), j + 1)
  {
    VisitStep(policies, up, s, j);
  }

  lemma SweepEnds(policies: seq<SchedulePolicy>, up: bool, s: State, j: nat)
    requires Wf(policies, up, s) && j <= |policies| && (j == |policies| || s.list == [])
    ensures Sweep(policies, up, s, j) == s
  {
  }

  lemma StopSweepEnds(policies: seq<SchedulePolicy>, up: bool, s: State, j: nat)
    requires Wf(policies, up, s) && j <= |policies| && s.add >= 0
    requires j == |policies| || s.list == [] || s.add == 0
    ensures StopSweep(policies, up, s, j) == Stop(s, j)
  {
  }

  /** The loop as written does what the guarded loop does and then finishes that loop's last sweep. */
  lemma {:induction false} RoundsFromMeant(policies: seq<SchedulePolicy>, up: bool, s: State)
    requires Wf(policies, up, s) && s.add >= 0
    ensures var m := Meant(policies, up, s);
      Rounds(policies, up, s) == Rounds(policies, up, Sweep(policies, up, m.state, m.next))
    decreases Measure(policies, up, s)
  {
    if s.add != 0 && s.list != [] {
      SweepFromStop(policies, up, s, 0);
      StopSweepFalls(policies, up, s);
      var t := StopSweep(policies, up, s, 0);
      if t.state.add != 0 && t.state.list != [] {
        RoundsFromMeant(policies, up, t.state);
      }
    }
  }

  lemma {:induction false} SweepServes(policies: seq<SchedulePolicy>, up: bool, s: State, j: nat)
    requires Wf(policies, up, s) && j <= |policies|
    ensures var t := Sweep(policies, up, s, j);
      if ServesFrom(policies, up, s, j) then t.add < s.add && TotalRoom(policies, s.replicas, up) > 0
      else t.add == s.add && t.replicas == s.replicas
    decreases |policies| - j
  {
    hide Sweep;
    if j < |policies| && s.list != [] {
      VisitStep(policies, up, s, j);
      SweepStep(policies, up, s, j);
      SweepServes(policies, up, Visit(policies, up, s, j), j + 1);
    } else {
      SweepEnds(policies, up, s, j);
    }
  }

  /** As written, the loop ends in the intended counts exactly when no sweep serves a policy past the remainder. */
  lemma RoundsMeetMeant(policies: seq<SchedulePolicy>, up: bool, s: State)
    requires Wf(policies, up, s) && s.add >= 0
    ensures var m := Meant(policies, up, s).state;
      if Overshoots(policies, up, s) then Rounds(policies, up, s).list == [] && TotalRoom(policies, m.replicas, up) > 0
      else Rounds(policies, up, s).replicas == m.replicas
  {
    var m := Meant(policies, up, s);
    RoundsFromMeant(policies, up, s);
    SweepServes(policies, up, m.state, m.next);
  }
}
