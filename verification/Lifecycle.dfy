/** A cluster's status over register, heartbeat, monitor and auto-deploy steps. */
module Lifecycle {

  datatype StatusType = Unset | Initializing | OnlineStatus | OfflineStatus

  datatype Condition = Condition(timestamp: int, kind: string, reason: string, message: string)

  const READY := "ClusterReady"
  const NOT_READY := "ClusterNotReady"
  const NOT_REACHABLE := "ClusterNotReachable"
  const MAXIMUM_CONDITIONS := 10
  const BLANK := Condition(0, "", "", "")

  datatype ClusterState = ClusterState(status: StatusType, healthy: bool, lastHeartbeat: int, lastUpdate: int,
    conditions: seq<Condition>)

  /** What a cluster is when register creates it: the status written with it is not stored. */
  const CREATED := ClusterState(Unset, false, 0, 0, [])

  datatype Event =
    | RegisterAgain(now: int)
    | Heartbeat(now: int, proxyConditions: seq<Condition>, healthy: bool)
    | MonitorTick(now: int, stamp: int)       // the clock when testing, and when writing
    | AutoDeploy(annotated: bool)

  /** GenerateReadyCondition. */
  function ReadyCondition(now: int, online: bool, healthy: bool): Condition {
    if !online then Condition(now, "Ready", NOT_REACHABLE, "cluster is not reachable")
    else if !healthy then Condition(now, "Ready", NOT_READY,
      "cluster is reachable but health endpoint responded without ok")
    else Condition(now, "Ready", READY, "cluster is reachable and health endpoint responded with ok")
  }

  /** ConvertCondition2KubeCondition appends to a slice that already has the final length: as many
      blank conditions come first. */
  function Converted(conditions: seq<Condition>): seq<Condition> {
    seq(|conditions|, _ => BLANK) + conditions
  }

  /** The last `MAXIMUM_CONDITIONS` elements. */
  function Trimmed<T>(s: seq<T>): seq<T> {
    if |s| > MAXIMUM_CONDITIONS then s[|s| - MAXIMUM_CONDITIONS..] else s
  }

  /** What a step appends: the conditions the proxy sent, then the control plane's own. */
  datatype Appended = Appended(fromProxy: seq<Condition>, own: seq<Condition>)

  predicate Expires(s: ClusterState, now: int, expiration: int) {
    now - s.lastHeartbeat >= expiration && s.status.OnlineStatus?
  }

  function Appends(s: ClusterState, e: Event, expiration: int): Appended {
    match e
    case RegisterAgain(now) => Appended([], [ReadyCondition(now, true, true)])
    case Heartbeat(now, proxyConditions, healthy) =>
      Appended(if proxyConditions == [] then [] else Converted(proxyConditions),
               if s.status.OnlineStatus? then [] else [ReadyCondition(now, true, healthy)])
    case MonitorTick(now, stamp) => Appended([],
      if Expires(s, now, expiration) then [ReadyCondition(stamp, false, false)] else [])
    case AutoDeploy(_) => Appended([], [])
  }

  function Step(s: ClusterState, e: Event, expiration: int): ClusterState {
    var appended := Appends(s, e, expiration);
    var conditions := Trimmed(s.conditions + appended.fromProxy + appended.own);
    match e
    case RegisterAgain(now) => ClusterState(OnlineStatus, true, now, now, conditions)
    case Heartbeat(now, _, healthy) => ClusterState(OnlineStatus, healthy, now, now, conditions)
    case MonitorTick(now, stamp) =>
      if Expires(s, now, expiration) then s.(status := OfflineStatus, lastUpdate := stamp, conditions := conditions)
        else s
    case AutoDeploy(annotated) =>
      if annotated && (s.status.Unset? || s.status.Initializing?) then s.(status := Initializing) else s
  }

  /** A condition ever appended, and whether the control plane wrote it. */
  datatype Logged = Logged(condition: Condition, own: bool)

  datatype Trace = Trace(state: ClusterState, log: seq<Logged>)

  function LogOf(a: Appended): (r: seq<Logged>)
    ensures |r| == |a.fromProxy| + |a.own|
  {
    seq(|a.fromProxy|, i requires 0 <= i < |a.fromProxy| => Logged(a.fromProxy[i], false))
    + seq(|a.own|, i requires 0 <= i < |a.own| => Logged(a.own[i], true))
  }

  /** A whole run from the creation of the cluster on. */
  function Run(events: seq<Event>, expiration: int): Trace {
    if events == [] then Trace(CREATED, [])
    else
      var before, e := Run(events[..|events| - 1], expiration), events[|events| - 1];
      Trace(Step(before.state, e, expiration), before.log + LogOf(Appends(before.state, e, expiration)))
  }

  function Conditions(log: seq<Logged>): (r: seq<Condition>)
    ensures |r| == |log| && forall i :: 0 <= i < |r| ==> r[i] == log[i].condition
  {
    seq(|log|, i requires 0 <= i < |log| => log[i].condition)
  }

  /** The reason of the newest condition the control plane wrote itself; empty if it never wrote one. */
  function NewestReason(log: seq<Logged>): string {
    if log == [] then ""
    else if log[|log| - 1].own then log[|log| - 1].condition.reason
    else NewestReason(log[..|log| - 1])
  }

  lemma {:induction false} NewestReasonSkipsProxy(log: seq<Logged>, tail: seq<Logged>)
    requires forall i :: 0 <= i < |tail| ==> !tail[i].own
    ensures NewestReason(log + tail) == NewestReason(log)
  {
    if tail == [] {
      assert log + tail == log;
    } else {
      assert (log + tail)[..|log + tail| - 1] == log + tail[..|tail| - 1];
      NewestReasonSkipsProxy(log, tail[..|tail| - 1]);
    }
  }

  lemma NewestReasonAfter(log: seq<Logged>, a: Appended)
    requires |a.own| <= 1
    ensures NewestReason(log + LogOf(a)) == if a.own == [] then NewestReason(log) else a.own[0].reason
  {
    if a.own == [] {
      NewestReasonSkipsProxy(log, LogOf(a));
    } else {
      var all := log + LogOf(a);
      assert all[|all| - 1] == Logged(a.own[0], true);
    }
  }

  lemma TrimAgain<T>(a: seq<T>, b: seq<T>)
    ensures Trimmed(Trimmed(a) + b) == Trimmed(a + b)
  {
  }

  lemma ConditionsAppend(log: seq<Logged>, a: Appended)
    ensures Conditions(log + LogOf(a)) == Conditions(log) + a.fromProxy + a.own
  {
  }

  /** What every reachable state satisfies. */
  ghost predicate Reachable(t: Trace, expiration: int) {
    && t.state.conditions == Trimmed(Conditions(t.log))
    && (t.state.status.OnlineStatus? ==> NewestReason(t.log) == READY || NewestReason(t.log) == NOT_READY)
    && (t.state.status.OfflineStatus? ==> NewestReason(t.log) == NOT_REACHABLE)
    && (t.state.status.OfflineStatus? ==> t.state.lastUpdate - t.state.lastHeartbeat >= expiration)
    && (t.state.status.Unset? || t.state.status.Initializing? ==> t.log == [])
  }

  /** The clock does not run backwards between the monitor's test and its write. */
  predicate ClocksForward(events: seq<Event>) {
    forall i :: 0 <= i < |events| && events[i].MonitorTick? ==> events[i].now <= events[i].stamp
  }

  lemma StepTrims(t: Trace, e: Event, expiration: int)
    requires t.state.conditions == Trimmed(Conditions(t.log))
    ensures var a := Appends(t.state, e, expiration);
      Step(t.state, e, expiration).conditions == Trimmed(Conditions(t.log + LogOf(a)))
  {
    hide *;
    var a := Appends(t.state, e, expiration);
    ConditionsAppend(t.log, a);
    TrimAgain(Conditions(t.log), a.fromProxy + a.own);
    TrimAgain(Conditions(t.log), []);
    assert Conditions(t.log) + [] == Conditions(t.log) && t.state.conditions + [] == t.state.conditions;
    assert Conditions(t.log) + a.fromProxy + a.own == Conditions(t.log) + (a.fromProxy + a.own);
    StepConditions(t.state, e, expiration);
  }

  lemma StepConditions(s: ClusterState, e: Event, expiration: int)
    requires Trimmed(s.conditions) == s.conditions
    ensures var a := Appends(s, e, expiration);
      Step(s, e, expiration).conditions == Trimmed(s.conditions + (a.fromProxy + a.own))
  {
    var a := Appends(s, e, expiration);
    assert s.conditions + a.fromProxy + a.own == s.conditions + (a.fromProxy + a.own);
    if a.fromProxy + a.own == [] {
      assert s.conditions + (a.fromProxy + a.own) == s.conditions;
    }
  }

  lemma StepKeeps(t: Trace, e: Event, expiration: int)
    requires Reachable(t, expiration) && (e.MonitorTick? ==> e.now <= e.stamp)
    ensures Reachable(Trace(Step(t.state, e, expiration), t.log + LogOf(Appends(t.state, e, expiration))), expiration)
  {
    hide Conditions, Trimmed, Converted, NewestReason;
    var a := Appends(t.state, e, expiration);
    StepTrims(t, e, expiration);
    NewestReasonAfter(t.log, a);
    assert a.fromProxy == [] && a.own == [] ==> t.log + LogOf(a) == t.log;
  }

  /** Safety over every run: the stored conditions are the last ten ever appended; an online cluster's
      newest own condition says it is reachable, an offline one's that it is not; and a cluster is
      offline only when its last heartbeat was at least the expiration time old. */
  lemma {:induction false} RunIsSafe(events: seq<Event>, expiration: int)
    requires ClocksForward(events)
    ensures Reachable(Run(events, expiration), expiration)
  {
    if events != [] {
      RunIsSafe(events[..|events| - 1], expiration);
      StepKeeps(Run(events[..|events| - 1], expiration), events[|events| - 1], expiration);
    }
  }

  lemma {:induction false} RunTrims(events: seq<Event>, expiration: int)
    ensures Run(events, expiration).state.conditions == Trimmed(Conditions(Run(events, expiration).log))
  {
    if events != [] {
      RunTrims(events[..|events| - 1], expiration);
      StepTrims(Run(events[..|events| - 1], expiration), events[|events| - 1], expiration);
    }
  }

  /** The stored conditions are the last ten ever appended, in order, whatever the clocks do. */
  lemma StoredAreLastTen(events: seq<Event>, expiration: int)
    ensures var t := Run(events, expiration);
      var n := |t.log|;
      && |t.state.conditions| == (if n < 10 then n else 10)
      && forall i :: 0 <= i < |t.state.conditions| ==>
           t.state.conditions[i] == t.log[n - |t.state.conditions| + i].condition
  {
    hide Run, Conditions;
    RunTrims(events, expiration);
  }

  predicate NoProxyConditions(events: seq<Event>) {
    forall i :: 0 <= i < |events| && events[i].Heartbeat? ==> events[i].proxyConditions == []
  }

  lemma {:induction false} OwnOnly(events: seq<Event>, expiration: int)
    requires NoProxyConditions(events)
    ensures forall i :: 0 <= i < |Run(events, expiration).log| ==> Run(events, expiration).log[i].own
  {
    if events != [] {
      OwnOnly(events[..|events| - 1], expiration);
    }
  }

  /** When proxies send no conditions of their own, the newest stored condition tells the status. */
  lemma NewestTellsStatus(events: seq<Event>, expiration: int)
    requires ClocksForward(events) && NoProxyConditions(events)
    ensures var s := Run(events, expiration).state;
      && (s.status.OnlineStatus? || s.status.OfflineStatus? ==> s.conditions != [])
      && (s.status.OnlineStatus? ==> s.conditions[|s.conditions| - 1].reason in {READY, NOT_READY})
      && (s.status.OfflineStatus? ==> s.conditions[|s.conditions| - 1].reason == NOT_REACHABLE)
  {
    hide *;
    RunIsSafe(events, expiration);
    OwnOnly(events, expiration);
    NewestIsLast(Run(events, expiration), expiration);
  }

  lemma NewestIsLast(t: Trace, expiration: int)
    requires Reachable(t, expiration) && forall i :: 0 <= i < |t.log| ==> t.log[i].own
    ensures var s := t.state;
      && (s.status.OnlineStatus? || s.status.OfflineStatus? ==> s.conditions != [])
      && (s.status.OnlineStatus? ==> s.conditions[|s.conditions| - 1].reason in {READY, NOT_READY})
      && (s.status.OfflineStatus? ==> s.conditions[|s.conditions| - 1].reason == NOT_REACHABLE)
  {
    if t.log != [] {
      assert NewestReason(t.log) == t.log[|t.log| - 1].condition.reason;
    }
  }

  /** With them it need not: a heartbeat of an online cluster leaves the proxy's condition on top. */
  lemma ProxyConditionOnTop(s: ClusterState, now: int, c: Condition, healthy: bool, expiration: int)
    requires s.status.OnlineStatus?
    ensures var t := Step(s, Heartbeat(now, [c], healthy), expiration);
      && t.conditions != [] && t.conditions[|t.conditions| - 1] == c
      && |t.conditions| >= 2 && t.conditions[|t.conditions| - 2] == BLANK
  {
    var all := s.conditions + Converted([c]) + [];
    assert all[|all| - 1] == c && all[|all| - 2] == BLANK;
  }

  // ---------- when a cluster is offline ----------

  /** The cluster was heard of. */
  predicate Contact(e: Event) {
    e.RegisterAgain? || e.Heartbeat?
  }

  /** When the cluster was last heard of, as a position in the run; -1 if it never was. */
  function LastContact(events: seq<Event>): (l: int)
    ensures -1 <= l < |events| && (l >= 0 ==> Contact(events[l]))
    ensures forall i :: l < i < |events| ==> !Contact(events[i])
  {
    if events == [] then -1
    else if Contact(events[|events| - 1]) then |events| - 1
    else LastContact(events[..|events| - 1])
  }

  /** Since then the monitor has looked at least the expiration time later. */
  predicate ExpiredSince(events: seq<Event>, l: nat, expiration: int)
    requires l < |events| && Contact(events[l])
  {
    exists i :: l < i < |events| && events[i].MonitorTick? && events[i].now - events[l].now >= expiration
  }

  /** What the last contact says of a state. */
  ghost predicate TellsStatus(events: seq<Event>, s: ClusterState, expiration: int) {
    var l := LastContact(events);
    if l < 0 then s.status.Unset? || s.status.Initializing?
    else
      && s.lastHeartbeat == events[l].now
      && s.status == if ExpiredSince(events, l, expiration) then OfflineStatus else OnlineStatus
  }

  lemma ExpiredSnoc(init: seq<Event>, e: Event, l: nat, expiration: int)
    requires l < |init| && Contact(init[l])
    ensures ExpiredSince(init + [e], l, expiration) <==>
      ExpiredSince(init, l, expiration) || (e.MonitorTick? && e.now - init[l].now >= expiration)
  {
    var all := init + [e];
    assert all[|init|] == e && all[l] == init[l];
    if ExpiredSince(init, l, expiration) {
      var i :| l < i < |init| && init[i].MonitorTick? && init[i].now - init[l].now >= expiration;
      assert all[i] == init[i];
    }
  }

  lemma LastContactSnoc(init: seq<Event>, e: Event, expiration: int)
    ensures LastContact(init + [e]) == if Contact(e) then |init| else LastContact(init)
    ensures Contact(e) ==> !ExpiredSince(init + [e], |init|, expiration)
  {
    assert (init + [e])[..|init|] == init;
  }

  lemma StatusStep(init: seq<Event>, e: Event, s: ClusterState, expiration: int)
    requires TellsStatus(init, s, expiration)
    ensures TellsStatus(init + [e], Step(s, e, expiration), expiration)
  {
    hide LastContact, ExpiredSince, Trimmed, Converted, ReadyCondition;
    var all, l := init + [e], LastContact(init);
    LastContactSnoc(init, e, expiration);
    assert all[|init|] == e && (l >= 0 ==> all[l] == init[l]);
    if !Contact(e) && l >= 0 {
      ExpiredSnoc(init, e, l, expiration);
    }
  }

  /** After every run, clocks as they may be: a cluster is offline if and only if it was heard of and the
      monitor has since looked at least the expiration time after the last contact. */
  lemma {:induction false} OfflineExactly(events: seq<Event>, expiration: int)
    ensures TellsStatus(events, Run(events, expiration).state, expiration)
    ensures Run(events, expiration).state.status.OfflineStatus? <==>
      var l := LastContact(events); l >= 0 && ExpiredSince(events, l, expiration)
  {
    if events != [] {
      var init, e := events[..|events| - 1], events[|events| - 1];
      OfflineExactly(init, expiration);
      StatusStep(init, e, Run(init, expiration).state, expiration);
      assert events == init + [e];
    }
  }

  /** The last contact reported a healthy cluster: registering does, a heartbeat says so itself. */
  predicate GoodReport(e: Event) {
    e.RegisterAgain? || (e.Heartbeat? && e.healthy)
  }

  predicate Deployed(events: seq<Event>) {
    exists i :: 0 <= i < |events| && events[i].AutoDeploy? && events[i].annotated
  }

  /** Health and time of an update come from the last contact; before the first one the cluster is initialising
      exactly if the proxy was deployed. */
  ghost predicate TellsHealth(events: seq<Event>, s: ClusterState) {
    var l := LastContact(events);
    if l < 0 then s.status == if Deployed(events) then Initializing else Unset
    else s.healthy == GoodReport(events[l]) && (s.status.OnlineStatus? ==> s.lastUpdate == events[l].now)
  }

  lemma DeployedSnoc(init: seq<Event>, e: Event)
    ensures Deployed(init + [e]) <==> Deployed(init) || (e.AutoDeploy? && e.annotated)
  {
    var all := init + [e];
    assert all[|init|] == e;
    if i :| 0 <= i < |init| && init[i].AutoDeploy? && init[i].annotated {
      assert all[i] == init[i];
    }
  }

  lemma HealthStep(init: seq<Event>, e: Event, s: ClusterState, expiration: int)
    requires TellsStatus(init, s, expiration) && TellsHealth(init, s)
    ensures TellsHealth(init + [e], Step(s, e, expiration))
  {
    hide LastContact, ExpiredSince, Trimmed, Converted, ReadyCondition, Deployed;
    var all, l := init + [e], LastContact(init);
    LastContactSnoc(init, e, expiration);
    DeployedSnoc(init, e);
    assert all[|init|] == e && (l >= 0 ==> all[l] == init[l]);
  }

  lemma {:induction false} HealthIsReported(events: seq<Event>, expiration: int)
    ensures TellsHealth(events, Run(events, expiration).state)
    decreases |events|
  {
    if events != [] {
      var init, e := events[..|events| - 1], events[|events| - 1];
      HealthIsReported(init, expiration);
      OfflineExactly(init, expiration);
      HealthStep(init, e, Run(init, expiration).state, expiration);
      assert events == init + [e];
    }
  }

  // ---------- what the newest condition says ----------

  /** The control plane writes a condition of its own. */
  predicate Writes(s: ClusterState, e: Event, expiration: int) {
    match e
    case RegisterAgain(_) => true
    case Heartbeat(_, _, _) => !s.status.OnlineStatus?
    case MonitorTick(now, _) => s.status.OnlineStatus? && now - s.lastHeartbeat >= expiration
    case AutoDeploy(_) => false
  }

  /** The last event at which it did; -1 if there was none. */
  function LastWrite(events: seq<Event>, expiration: int): (l: int)
    ensures -1 <= l < |events|
    decreases |events|
  {
    if events == [] then -1
    else if Writes(Run(events[..|events| - 1], expiration).state, events[|events| - 1], expiration) then |events| - 1
    else LastWrite(events[..|events| - 1], expiration)
  }

  predicate SaysReady(c: Condition) {
    c.reason == "ClusterReady" && c.message == "cluster is reachable and health endpoint responded with ok"
  }

  predicate SaysNotReady(c: Condition) {
    c.reason == "ClusterNotReady" && c.message == "cluster is reachable but health endpoint responded without ok"
  }

  /** What such a condition says: reachable and healthy, reachable and not healthy, or not reachable. */
  ghost predicate Says(c: Condition, e: Event) {
    && c.kind == "Ready"
    && match e
       case RegisterAgain(now) => c.timestamp == now && SaysReady(c)
       case Heartbeat(now, _, healthy) => c.timestamp == now && if healthy then SaysReady(c) else SaysNotReady(c)
       case MonitorTick(_, stamp) =>
         c.timestamp == stamp && c.reason == "ClusterNotReachable" && c.message == "cluster is not reachable"
       case AutoDeploy(_) => false
  }

  /** The newest condition of the control plane in the log. */
  ghost predicate NewestIs(log: seq<Logged>, c: Condition) {
    exists i :: 0 <= i < |log| && log[i] == Logged(c, true) && forall k :: i < k < |log| ==> !log[k].own
  }

  lemma NewestAfter(log: seq<Logged>, a: Appended)
    requires |a.own| <= 1
    ensures a.own != [] ==> NewestIs(log + LogOf(a), a.own[0])
    ensures a.own == [] ==> forall c :: NewestIs(log, c) ==> NewestIs(log + LogOf(a), c)
  {
    var all := log + LogOf(a);
    if a.own != [] {
      assert all[|all| - 1] == Logged(a.own[0], true);
    } else {
      forall c | NewestIs(log, c) ensures NewestIs(all, c) {
        var i :| 0 <= i < |log| && log[i] == Logged(c, true) && forall k :: i < k < |log| ==> !log[k].own;
        assert all[i] == log[i];
      }
    }
  }

  lemma WritesIsAppends(s: ClusterState, e: Event, expiration: int)
    ensures var own := Appends(s, e, expiration).own;
      && |own| == (if Writes(s, e, expiration) then 1 else 0)
      && (own != [] ==> Says(own[0], e))
  {
  }

  /** After every run the newest condition of the control plane is the one written last, and says what the event
      told then: a later heartbeat of a cluster that is online already does not change it. */
  lemma {:induction false} NewestSaysLastWrite(events: seq<Event>, expiration: int)
    ensures var l := LastWrite(events, expiration);
      l >= 0 ==> exists c :: NewestIs(Run(events, expiration).log, c) && Says(c, events[l])
    decreases |events|
  {
    if events != [] {
      var init, e := events[..|events| - 1], events[|events| - 1];
      var before := Run(init, expiration);
      NewestSaysLastWrite(init, expiration);
      NewestAfter(before.log, Appends(before.state, e, expiration));
      WritesIsAppends(before.state, e, expiration);
    }
  }

  /** The cluster object the handlers, the monitor and the controller update in place. */
  class Cluster {
    var status: StatusType
    var healthy: bool
    var lastHeartbeat: int
    var lastUpdate: int
    var conditions: seq<Condition>

    /** Register for a name that is not there yet. */
    constructor ()
      ensures Value() == CREATED
    {
      status, healthy, lastHeartbeat, lastUpdate, conditions := Unset, false, 0, 0, [];
    }

    function Value(): ClusterState
      reads this
    {
      ClusterState(status, healthy, lastHeartbeat, lastUpdate, conditions)
    }

    /** UpdateClusterStatus, up to the write itself. */
    method TrimConditions()
      modifies this`conditions
      ensures conditions == Trimmed(old(conditions))
    {
      if |conditions| > MAXIMUM_CONDITIONS {
        conditions := conditions[|conditions| - MAXIMUM_CONDITIONS..];
      }
    }

    /** registerClusterInKube for an existing cluster. Its early return for an online cluster tests the
        object just built for the request, whose status is empty, and is never taken. */
    method Register(now: int, expiration: int)
      modifies this
      ensures Value() == Step(old(Value()), RegisterAgain(now), expiration)
    {
      lastUpdate, lastHeartbeat := now, now;
      status, healthy := OnlineStatus, true;
      conditions := conditions + [ReadyCondition(now, true, true)];
      assert conditions == old(conditions) + [] + [ReadyCondition(now, true, true)];
      TrimConditions();
    }

    /** updateClusterStatusWithHeartbeat. */
    method ReceiveHeartbeat(now: int, proxyConditions: seq<Condition>, reported: bool, expiration: int)
      modifies this
      ensures Value() == Step(old(Value()), Heartbeat(now, proxyConditions, reported), expiration)
    {
      ghost var a := Appends(Value(), Heartbeat(now, proxyConditions, reported), expiration);
      if |proxyConditions| > 0 {
        conditions := conditions + Converted(proxyConditions);
      }
      if status != OnlineStatus {
        conditions := conditions + [ReadyCondition(now, true, reported)];
      }
      assert conditions == old(conditions) + a.fromProxy + a.own;
      status, healthy, lastHeartbeat, lastUpdate := OnlineStatus, reported, now, now;
      TrimConditions();
    }

    /** The monitor's test of one cluster, and OfflineCluster. */
    method CheckExpired(now: int, stamp: int, expiration: int) returns (offline: bool)
      modifies this
      ensures Value() == Step(old(Value()), MonitorTick(now, stamp), expiration)
      ensures offline <==> Expires(old(Value()), now, expiration)
    {
      offline := now - lastHeartbeat >= expiration && status == OnlineStatus;
      if offline {
        GoOffline(stamp);
        assert old(conditions) + [ReadyCondition(stamp, false, false)]
          == old(conditions) + [] + [ReadyCondition(stamp, false, false)];
      }
    }

    method GoOffline(stamp: int)
      modifies this
      ensures old(status) == OfflineStatus ==> Value() == old(Value())
      ensures old(status) != OfflineStatus ==>
        Value() == old(Value()).(status := OfflineStatus, lastUpdate := stamp,
                                 conditions := Trimmed(old(conditions) + [ReadyCondition(stamp, false, false)]))
    {
      if status == OfflineStatus {
        return;
      }
      status, lastUpdate := OfflineStatus, stamp;
      conditions := conditions + [ReadyCondition(stamp, false, false)];
      TrimConditions();
    }

    /** The auto-deploy branch of the cluster controller, as far as the status goes. */
    method DeployProxy(annotated: bool, expiration: int)
      modifies this
      ensures Value() == Step(old(Value()), AutoDeploy(annotated), expiration)
    {
      if annotated && (status == Unset || status == Initializing) {
        status := Initializing;
      }
    }
  }
}
