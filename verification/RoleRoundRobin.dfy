/** The round robin over cluster roles. A turn of the list serves every cluster of one role.

    `asWritten` tells the two readings of the `break` after the last list entry is dropped apart:
    in Go it leaves the enclosing switch, so the next cluster reads the list at -1; what is meant
    is to leave the loop over the clusters. */
module RoleRoundRobin {
  import opened Sums
  import opened Policies
  import opened RoundRobin
  import opened Wrappers

  datatype RoleStep =
    | Next(state: State, looked: nat)   // the sweep ended after looking at `looked` clusters
    | Returned(state: State)            // the function returned
    | IndexPanic                        // the list was read at -1
    | Spins(state: State)               // replicas remain, but no role left on the list has a cluster

  predicate DistinctRoles(policies: seq<SchedulePolicy>) {
    forall i, j :: 0 <= i < j < |policies| ==> policies[i].role != policies[j].role
  }

  /** Some cluster carries the role; `instances` holds each cluster's policy. */
  predicate Carried(instances: seq<SchedulePolicy>, role: string) {
    exists j :: 0 <= j < |instances| && instances[j].role == role
  }

  predicate CarriedFrom(instances: seq<SchedulePolicy>, role: string, j: nat) {
    exists k :: j <= k < |instances| && instances[k].role == role
  }

  /** Some entry of the list from position p on has a role that is carried. */
  predicate AnyCarried(instances: seq<SchedulePolicy>, list: seq<SchedulePolicy>, p: int) {
    exists q :: 0 <= q < |list| && p <= q && Carried(instances, list[q].role)
  }

  ghost predicate RoleWf(instances: seq<SchedulePolicy>, up: bool, s: State) {
    && |s.replicas| == |instances| && HaveRoom(instances, s.replicas, up)
    && s.list != [] && -1 <= s.idx < |s.list| && s.add >= 0
  }

  ghost function RoleMeasure(instances: seq<SchedulePolicy>, up: bool, s: State): nat
    requires |s.replicas| == |instances| && HaveRoom(instances, s.replicas, up)
  {
    TotalRoom(instances, s.replicas, up) + |s.list|
  }

  /** The loop over the clusters from cluster j on. */
  function RoleSweep(instances: seq<SchedulePolicy>, up: bool, s: State, j: nat, asWritten: bool): RoleStep
    requires |s.replicas| == |instances| && j <= |instances| && -1 <= s.idx < |s.list|
    decreases |instances| - j
  {
    if j == |instances| || s.add == 0 then Next(s, j)
    else if s.idx == -1 then IndexPanic
    else if instances[j].role != s.list[s.idx].role then RoleSweep(instances, up, s, j + 1, asWritten)
    else if Room(instances[j], s.replicas[j], up) > 0 then
      RoleSweep(instances, up, Grant(instances, up, s, j), j + 1, asWritten)
    else
      var t := Drop(s);
      if t.list == [] then Returned(t)
      else if t.idx == -1 && !asWritten then Next(t, j + 1)
      else RoleSweep(instances, up, t, j + 1, asWritten)
  }

  function Grant(instances: seq<SchedulePolicy>, up: bool, s: State, j: nat): State
    requires |s.replicas| == |instances| && j < |instances|
  {
    s.(replicas := s.replicas[j := Move(s.replicas[j], 1, up)], add := s.add - 1)
  }

  /** Drop the current entry; past the end the cursor goes back before the first one. */
  function Drop(s: State): State
    requires 0 <= s.idx < |s.list|
  {
    s.(list := RemoveAt(s.list, s.idx), idx := if s.idx == |s.list| - 1 then -1 else s.idx)
  }

  /** What the loop body does at cluster j: serve it, drop a role with a full cluster, or nothing. */
  function ClusterVisited(instances: seq<SchedulePolicy>, up: bool, s: State, j: nat): State
    requires |s.replicas| == |instances| && j < |instances| && 0 <= s.idx < |s.list|
  {
    if instances[j].role != s.list[s.idx].role then s
    else if Room(instances[j], s.replicas[j], up) > 0 then Grant(instances, up, s, j)
    else Drop(s)
  }

  /** The sweep goes on from what its body does at cluster j, unless that empties the list. */
  lemma SweepVisits(instances: seq<SchedulePolicy>, up: bool, s: State, j: nat)
    requires |s.replicas| == |instances| && j < |instances| && 0 <= s.idx < |s.list| && s.add != 0
    ensures var t := ClusterVisited(instances, up, s, j);
      && |t.replicas| == |instances|
      && (t.list == [] ==> RoleSweep(instances, up, s, j, true) == Returned(t))
      && (t.list != [] ==>
        -1 <= t.idx < |t.list| && RoleSweep(instances, up, s, j, true) == RoleSweep(instances, up, t, j + 1, true))
  {
  }

  /** What a new turn of the list does to the cursor. */
  function Turn(s: State): State {
    s.(idx := if s.idx == |s.list| - 1 then 0 else s.idx + 1)
  }

  /** What a sweep and a whole run keep: room, replicas plus remainder, and that every role that
      left the list has a cluster at its bound. */
  ghost predicate Kept(instances: seq<SchedulePolicy>, up: bool, s: State, t: State) {
    && |s.replicas| == |t.replicas| == |instances|
    && HaveRoom(instances, t.replicas, up) && Advanced(s.replicas, t.replicas, up)
    && 0 <= t.add <= s.add && Move(Sum(t.replicas), t.add, up) == Move(Sum(s.replicas), s.add, up)
    && (forall q :: 0 <= q < |t.list| ==> t.list[q] in s.list)
    && forall q :: 0 <= q < |s.list| ==> s.list[q] in t.list || Saturated(instances, t.replicas, up, s.list[q].role)
  }

  /** Some cluster of the role is at its bound. */
  ghost predicate Saturated(instances: seq<SchedulePolicy>, replicas: seq<int>, up: bool, role: string)
    requires |replicas| == |instances|
  {
    exists j :: 0 <= j < |instances| && instances[j].role == role && Room(instances[j], replicas[j], up) == 0
  }

  lemma SaturatedStays(instances: seq<SchedulePolicy>, a: seq<int>, b: seq<int>, up: bool, role: string)
    requires |a| == |b| == |instances| && Advanced(a, b, up) && HaveRoom(instances, b, up)
    requires Saturated(instances, a, up, role)
    ensures Saturated(instances, b, up, role)
  {
    var j :| 0 <= j < |instances| && instances[j].role == role && Room(instances[j], a[j], up) == 0;
    assert Given(a[j], b[j], up) >= 0;
  }

  lemma KeptTrans(instances: seq<SchedulePolicy>, up: bool, s: State, t: State, u: State)
    requires Kept(instances, up, s, t) && Kept(instances, up, t, u)
    ensures Kept(instances, up, s, u)
  {
    forall q | 0 <= q < |s.list| && s.list[q] !in u.list
      ensures Saturated(instances, u.replicas, up, s.list[q].role)
    {
      if s.list[q] in t.list {
        var p :| 0 <= p < |t.list| && t.list[p] == s.list[q];
      } else {
        SaturatedStays(instances, t.replicas, u.replicas, up, s.list[q].role);
      }
    }
  }

  lemma GrantKeeps(instances: seq<SchedulePolicy>, up: bool, s: State, j: nat)
    requires RoleWf(instances, up, s) && j < |instances| && s.add > 0 && Room(instances[j], s.replicas[j], up) > 0
    ensures RoleWf(instances, up, Grant(instances, up, s, j)) && Kept(instances, up, s, Grant(instances, up, s, j))
    ensures RoleMeasure(instances, up, Grant(instances, up, s, j)) == RoleMeasure(instances, up, s) - 1
  {
    SumUpdate(s.replicas, j, Move(s.replicas[j], 1, up));
  }

  lemma DropKeeps(instances: seq<SchedulePolicy>, up: bool, s: State, j: nat)
    requires RoleWf(instances, up, s) && j < |instances| && s.idx >= 0
    requires instances[j].role == s.list[s.idx].role && Room(instances[j], s.replicas[j], up) == 0
    ensures Drop(s).list != [] ==> RoleWf(instances, up, Drop(s))
    ensures Kept(instances, up, s, Drop(s))
    ensures RoleMeasure(instances, up, Drop(s)) == RoleMeasure(instances, up, s) - 1
  {
    var t := Drop(s);
    forall q | 0 <= q < |s.list| ensures s.list[q] in t.list || Saturated(instances, t.replicas, up, s.list[q].role) {
      if q < s.idx {
        assert t.list[q] == s.list[q];
      } else if q > s.idx {
        assert t.list[q - 1] == s.list[q];
      }
    }
  }

  /** What a sweep from cluster j can come to. Only the code as written can panic. */
  ghost predicate SweepOutcome(instances: seq<SchedulePolicy>, up: bool, s: State, j: nat, asWritten: bool, r: RoleStep)
    requires RoleWf(instances, up, s)
  {
    match r
    case IndexPanic => asWritten || s.idx == -1
    case Spins(_) => false
    case Returned(t) => t.list == [] && Kept(instances, up, s, t)
    case Next(t, looked) =>
      && j <= looked <= |instances|
      && RoleWf(instances, up, t) && Kept(instances, up, s, t)
      && RoleMeasure(instances, up, t) <= RoleMeasure(instances, up, s)
  }

  /** The sweep did something. */
  ghost predicate Falls(instances: seq<SchedulePolicy>, up: bool, s: State, r: RoleStep)
    requires RoleWf(instances, up, s)
  {
    r.Next? ==> RoleWf(instances, up, r.state) && RoleMeasure(instances, up, r.state) < RoleMeasure(instances, up, s)
  }

  /** A sweep keeps everything above, and does something whenever replicas remain and the current
      role is carried by a cluster still ahead. */
  lemma {:induction false} RoleSweepKeeps(instances: seq<SchedulePolicy>, up: bool, s: State, j: nat, asWritten: bool)
    requires RoleWf(instances, up, s) && j <= |instances|
    ensures var r := RoleSweep(instances, up, s, j, asWritten);
      && SweepOutcome(instances, up, s, j, asWritten, r)
      && (s.add > 0 && s.idx >= 0 && CarriedFrom(instances, s.list[s.idx].role, j) ==> Falls(instances, up, s, r))
    decreases |instances| - j
  {
    if j == |instances| || s.add == 0 || s.idx == -1 {
      SweepStops(instances, up, s, j, asWritten);
    } else if instances[j].role != s.list[s.idx].role {
      RoleSweepKeeps(instances, up, s, j + 1, asWritten);
      SweepPassesBy(instances, up, s, j, asWritten);
    } else if Room(instances[j], s.replicas[j], up) > 0 {
      GrantKeeps(instances, up, s, j);
      RoleSweepKeeps(instances, up, Grant(instances, up, s, j), j + 1, asWritten);
      SweepGrants(instances, up, s, j, asWritten);
    } else {
      DropKeeps(instances, up, s, j);
      if |s.list| > 1 {
        RoleSweepKeeps(instances, up, Drop(s), j + 1, asWritten);
      }
      SweepDrops(instances, up, s, j, asWritten);
    }
  }

  lemma KeptAtOnce(instances: seq<SchedulePolicy>, up: bool, s: State)
    requires RoleWf(instances, up, s)
    ensures Kept(instances, up, s, s)
  {
  }

  lemma SweepStops(instances: seq<SchedulePolicy>, up: bool, s: State, j: nat, asWritten: bool)
    requires RoleWf(instances, up, s) && j <= |instances| && (j == |instances| || s.add == 0 || s.idx == -1)
    ensures SweepOutcome(instances, up, s, j, asWritten, RoleSweep(instances, up, s, j, asWritten))
    ensures s.add > 0 && s.idx >= 0 ==> !CarriedFrom(instances, s.list[s.idx].role, j)
  {
    KeptAtOnce(instances, up, s);
  }

  lemma SweepPassesBy(instances: seq<SchedulePolicy>, up: bool, s: State, j: nat, asWritten: bool)
    requires RoleWf(instances, up, s) && j < |instances| && s.add > 0 && s.idx >= 0
    requires instances[j].role != s.list[s.idx].role
    requires SweepOutcome(instances, up, s, j + 1, asWritten, RoleSweep(instances, up, s, j + 1, asWritten))
    ensures RoleSweep(instances, up, s, j, asWritten) == RoleSweep(instances, up, s, j + 1, asWritten)
    ensures SweepOutcome(instances, up, s, j, asWritten, RoleSweep(instances, up, s, j, asWritten))
    ensures CarriedFrom(instances, s.list[s.idx].role, j) ==> CarriedFrom(instances, s.list[s.idx].role, j + 1)
  {
  }

  lemma SweepGrants(instances: seq<SchedulePolicy>, up: bool, s: State, j: nat, asWritten: bool)
    requires RoleWf(instances, up, s) && j < |instances| && s.add > 0 && s.idx >= 0
    requires instances[j].role == s.list[s.idx].role && Room(instances[j], s.replicas[j], up) > 0
    requires RoleWf(instances, up, Grant(instances, up, s, j))
    requires SweepOutcome(instances, up, Grant(instances, up, s, j), j + 1, asWritten,
                          RoleSweep(instances, up, Grant(instances, up, s, j), j + 1, asWritten))
    ensures var r := RoleSweep(instances, up, s, j, asWritten);
      SweepOutcome(instances, up, s, j, asWritten, r) && Falls(instances, up, s, r)
  {
    GrantKeeps(instances, up, s, j);
    StepThen(instances, up, s, Grant(instances, up, s, j), j, asWritten, RoleSweep(instances, up, s, j, asWritten));
  }

  lemma SweepDrops(instances: seq<SchedulePolicy>, up: bool, s: State, j: nat, asWritten: bool)
    requires RoleWf(instances, up, s) && j < |instances| && s.add > 0 && s.idx >= 0
    requires instances[j].role == s.list[s.idx].role && Room(instances[j], s.replicas[j], up) == 0
    requires |s.list| > 1 ==>
      && RoleWf(instances, up, Drop(s))
      && SweepOutcome(instances, up, Drop(s), j + 1, asWritten, RoleSweep(instances, up, Drop(s), j + 1, asWritten))
    ensures var r := RoleSweep(instances, up, s, j, asWritten);
      SweepOutcome(instances, up, s, j, asWritten, r) && Falls(instances, up, s, r)
  {
    DropKeeps(instances, up, s, j);
    if |s.list| > 1 {
      var t := Drop(s);
      if t.idx == -1 && !asWritten {
        KeptAtOnce(instances, up, t);
        StepThen(instances, up, s, t, j, asWritten, Next(t, j + 1));
      } else {
        StepThen(instances, up, s, t, j, asWritten, RoleSweep(instances, up, t, j + 1, asWritten));
      }
    }
  }

  /** What follows a step that does something. */
  lemma StepThen(instances: seq<SchedulePolicy>, up: bool, s: State, t: State, j: nat, asWritten: bool, r: RoleStep)
    requires RoleWf(instances, up, s) && RoleWf(instances, up, t) && Kept(instances, up, s, t)
    requires RoleMeasure(instances, up, t) < RoleMeasure(instances, up, s) && (t.idx == -1 ==> asWritten || r.Next?)
    requires SweepOutcome(instances, up, t, j + 1, asWritten, r)
    ensures SweepOutcome(instances, up, s, j, asWritten, r) && Falls(instances, up, s, r)
  {
    if !r.IndexPanic? {
      KeptTrans(instances, up, s, t, r.state);
    }
  }

  /** Turns of the list until the cursor meets a carried role, at most. */
  ghost function TurnsLeft(instances: seq<SchedulePolicy>, s: State): nat
    requires -1 <= s.idx < |s.list|
  {
    if AnyCarried(instances, s.list, s.idx + 1) then |s.list| - s.idx else 2 * |s.list| - s.idx
  }

  /** The whole loop. */
  ghost function RoleRounds(instances: seq<SchedulePolicy>, up: bool, s: State, asWritten: bool): RoleStep
    requires RoleWf(instances, up, s)
    decreases RoleMeasure(instances, up, s), TurnsLeft(instances, s)
  {
    if s.add == 0 then Returned(s)
    else if !AnyCarried(instances, s.list, 0) then Spins(s)
    else
      SweepProgress(instances, up, s, asWritten);
      var r := RoleSweep(instances, up, Turn(s), 0, asWritten);
      if r.Next? then RoleRounds(instances, up, r.state, asWritten) else r
  }

  /** How the loop can end. */
  ghost predicate RoundsOutcome(instances: seq<SchedulePolicy>, up: bool, s: State, asWritten: bool, r: RoleStep) {
    match r
    case Next(_, _) => false
    case IndexPanic => asWritten
    case Returned(t) => Kept(instances, up, s, t) && (t.add == 0 || t.list == [])
    case Spins(t) => Kept(instances, up, s, t) && t.add > 0 && t.list != [] && !AnyCarried(instances, t.list, 0)
  }

  lemma {:induction false} RoleRoundsKeep(instances: seq<SchedulePolicy>, up: bool, s: State, asWritten: bool)
    requires RoleWf(instances, up, s)
    ensures RoundsOutcome(instances, up, s, asWritten, RoleRounds(instances, up, s, asWritten))
    decreases RoleMeasure(instances, up, s), TurnsLeft(instances, s)
  {
    if s.add == 0 || !AnyCarried(instances, s.list, 0) {
      KeptAtOnce(instances, up, s);
    } else {
      SweepProgress(instances, up, s, asWritten);
      var r := RoleSweep(instances, up, Turn(s), 0, asWritten);
      if r.Next? {
        RoleRoundsKeep(instances, up, r.state, asWritten);
        OutcomeOnward(instances, up, s, r.state, asWritten, RoleRounds(instances, up, r.state, asWritten));
      }
    }
  }

  lemma OutcomeOnward(instances: seq<SchedulePolicy>, up: bool, s: State, t: State, asWritten: bool, r: RoleStep)
    requires Kept(instances, up, s, t) && RoundsOutcome(instances, up, t, asWritten, r)
    ensures RoundsOutcome(instances, up, s, asWritten, r)
  {
    if r.Returned? || r.Spins? {
      KeptTrans(instances, up, s, t, r.state);
    }
  }

  lemma TurnKeeps(instances: seq<SchedulePolicy>, up: bool, s: State)
    requires RoleWf(instances, up, s)
    ensures RoleWf(instances, up, Turn(s)) && Turn(s).idx >= 0
    ensures RoleMeasure(instances, up, Turn(s)) == RoleMeasure(instances, up, s)
    ensures forall t :: Kept(instances, up, Turn(s), t) ==> Kept(instances, up, s, t)
  {
  }

  /** A sweep over a role nobody carries looks at every cluster and does nothing. */
  lemma {:induction false} UncarriedSweep(instances: seq<SchedulePolicy>, up: bool, s: State, j: nat, asWritten: bool)
    requires |s.replicas| == |instances| && j <= |instances| && 0 <= s.idx < |s.list| && s.add != 0
    requires !Carried(instances, s.list[s.idx].role)
    ensures RoleSweep(instances, up, s, j, asWritten) == Next(s, |instances|)
    decreases |instances| - j
  {
    if j < |instances| {
      UncarriedSweep(instances, up, s, j + 1, asWritten);
    }
  }

  /** A turn with its sweep brings the end of the loop nearer. */
  ghost predicate Nearer(instances: seq<SchedulePolicy>, up: bool, s: State, t: State)
    requires RoleWf(instances, up, s) && RoleWf(instances, up, t)
  {
    || RoleMeasure(instances, up, t) < RoleMeasure(instances, up, s)
    || (RoleMeasure(instances, up, t) == RoleMeasure(instances, up, s)
      && TurnsLeft(instances, t) < TurnsLeft(instances, s))
  }

  /** While some listed role is carried, a turn with its sweep makes progress. */
  lemma SweepProgress(instances: seq<SchedulePolicy>, up: bool, s: State, asWritten: bool)
    requires RoleWf(instances, up, s) && s.add > 0 && AnyCarried(instances, s.list, 0)
    ensures RoleWf(instances, up, Turn(s)) && Turn(s).idx >= 0
    ensures var r := RoleSweep(instances, up, Turn(s), 0, asWritten);
      && SweepOutcome(instances, up, s, 0, asWritten, r) && (r.IndexPanic? ==> asWritten)
      && (r.Next? ==> Nearer(instances, up, s, r.state))
  {
    TurnKeeps(instances, up, s);
    var t := Turn(s);
    if Carried(instances, t.list[t.idx].role) {
      assert CarriedFrom(instances, t.list[t.idx].role, 0);
      RoleSweepKeeps(instances, up, t, 0, asWritten);
    } else {
      UncarriedSweep(instances, up, t, 0, asWritten);
      TurnsFall(instances, s);
      KeptAtOnce(instances, up, s);
    }
  }

  lemma TurnsFall(instances: seq<SchedulePolicy>, s: State)
    requires -1 <= s.idx < |s.list| && AnyCarried(instances, s.list, 0)
    requires !Carried(instances, Turn(s).list[Turn(s).idx].role)
    ensures TurnsLeft(instances, Turn(s)) < TurnsLeft(instances, s)
  {
    var q :| 0 <= q < |s.list| && Carried(instances, s.list[q].role);
    assert AnyCarried(instances, s.list, s.idx + 1) ==> AnyCarried(instances, s.list, Turn(s).idx + 1);
    assert s.idx == |s.list| - 1 ==> q >= 1 && AnyCarried(instances, s.list, 1);
  }

  /** `Spins` is no artefact: from there every further turn moves the cursor only, so the loop never ends. */
  lemma {:induction false} SpinsForever(instances: seq<SchedulePolicy>, up: bool, s: State, turns: nat, asWritten: bool)
    requires |s.replicas| == |instances| && s.list != [] && -1 <= s.idx < |s.list| && s.add != 0
      && !AnyCarried(instances, s.list, 0)
    ensures var t := AfterTurns(instances, up, s, turns, asWritten);
      t.Some? && t.value == s.(idx := t.value.idx) && -1 <= t.value.idx < |s.list|
    decreases turns
  {
    if turns > 0 {
      SpinsForever(instances, up, s, turns - 1, asWritten);
      var t := AfterTurns(instances, up, s, turns - 1, asWritten).value;
      UncarriedSweep(instances, up, Turn(t), 0, asWritten);
    }
  }

  /** The state after some turns of the loop, if it is still running. */
  function AfterTurns(instances: seq<SchedulePolicy>, up: bool, s: State, turns: nat,
                      asWritten: bool): (r: Option<State>)
    requires |s.replicas| == |instances| && -1 <= s.idx < |s.list|
    decreases turns
  {
    if turns == 0 then Some(s) else
      match AfterTurns(instances, up, s, turns - 1, asWritten)
      case None => None
      case Some(t) =>
        if t.add == 0 || |t.replicas| != |instances| || t.list == [] || !(-1 <= t.idx < |t.list|) then None
        else match RoleSweep(instances, up, Turn(t), 0, asWritten)
             case Next(u, _) => Some(u)
             case _ => None
  }

  /** In the run as meant, some sweep drops the last entry of the list with clusters still to look at. */
  ghost predicate Strands(instances: seq<SchedulePolicy>, up: bool, s: State)
    requires RoleWf(instances, up, s)
    decreases RoleMeasure(instances, up, s), TurnsLeft(instances, s)
  {
    s.add != 0 && AnyCarried(instances, s.list, 0) && (
      SweepProgress(instances, up, s, false);
      match RoleSweep(instances, up, Turn(s), 0, false)
      case Next(t, looked) => (t.idx == -1 && looked < |instances|) || Strands(instances, up, t)
      case _ => false)
  }

  /** One sweep as written is the sweep as meant, except that it panics where that one leaves early. */
  lemma {:induction false} SweepPanics(instances: seq<SchedulePolicy>, up: bool, s: State, j: nat)
    requires RoleWf(instances, up, s) && j <= |instances| && s.idx >= 0
    ensures RoleSweep(instances, up, s, j, true) ==
      match RoleSweep(instances, up, s, j, false)
      case Next(t, looked) => if t.idx == -1 && looked < |instances| then IndexPanic else Next(t, looked)
      case r => r
    decreases |instances| - j
  {
    if j < |instances| && s.add > 0 {
      if instances[j].role != s.list[s.idx].role {
        SweepPanics(instances, up, s, j + 1);
      } else if Room(instances[j], s.replicas[j], up) > 0 {
        GrantKeeps(instances, up, s, j);
        SweepPanics(instances, up, Grant(instances, up, s, j), j + 1);
      } else if |s.list| > 1 && s.idx < |s.list| - 1 {
        DropKeeps(instances, up, s, j);
        SweepPanics(instances, up, Drop(s), j + 1);
      }
    }
  }

  /** As written, the loop panics exactly when the run as meant strands, and otherwise it is that run. */
  lemma {:induction false} RoundsPanic(instances: seq<SchedulePolicy>, up: bool, s: State)
    requires RoleWf(instances, up, s)
    ensures RoleRounds(instances, up, s, true)
      == if Strands(instances, up, s) then IndexPanic else RoleRounds(instances, up, s, false)
    decreases RoleMeasure(instances, up, s), TurnsLeft(instances, s)
  {
    if s.add != 0 && AnyCarried(instances, s.list, 0) {
      TurnKeeps(instances, up, s);
      SweepPanics(instances, up, Turn(s), 0);
      SweepProgress(instances, up, s, false);
      match RoleSweep(instances, up, Turn(s), 0, false)
      case Next(t, looked) =>
        if t.idx != -1 || looked == |instances| {
          RoundsPanic(instances, up, t);
        }
      case _ =>
    }
  }
}
