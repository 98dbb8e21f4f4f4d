/** From heartbeats to bindings: what the scheduler calls online, told by the events of a cluster's life. */
module Availability {
  import opened Snapshot
  import opened Failover
  import opened Bindings
  import L = Lifecycle

  type Histories = map<string, seq<L.Event>>

  /** The statuses in the snapshot are what the clusters' histories led to. */
  ghost predicate Witnessed(w: World, histories: Histories, expiration: int) {
    forall name :: name in w.clusters ==>
      name in histories
      && (w.clusters[name].online <==> L.Run(histories[name], expiration).state.status.OnlineStatus?)
  }

  /** The cluster registered or sent a heartbeat, and the monitor has not looked the expiration time later since. */
  ghost predicate Alive(events: seq<L.Event>, expiration: int) {
    var l := L.LastContact(events);
    l >= 0 && forall i :: l < i < |events| && events[i].MonitorTick? ==> events[i].now - events[l].now < expiration
  }

  /** A cluster is online exactly if it exists and is alive. */
  lemma OnlineIsAlive(w: World, histories: Histories, expiration: int, name: string)
    requires Witnessed(w, histories, expiration)
    ensures Online(w, name) <==> name in w.clusters && Alive(histories[name], expiration)
  {
    if name in w.clusters {
      L.OfflineExactly(histories[name], expiration);
    }
  }

  /** Every cluster of a binding exists and is alive; and one that is stays in its place. */
  lemma BoundAreAlive(w: World, histories: Histories, expiration: int, primary: seq<string>,
                      failover: seq<FailoverPolicy>)
    requires Readable(w) && Witnessed(w, histories, expiration) && CheckOf(w, primary, failover).Checked?
    ensures var check := CheckOf(w, primary, failover);
      var b := Bind(w, primary, check.failIndex, failover, check.unavailable);
      b.Names? ==> |b.names| == |primary| && forall j :: 0 <= j < |primary| ==>
        && b.names[j] in w.clusters && Alive(histories[b.names[j]], expiration)
        && (primary[j] in w.clusters && Alive(histories[primary[j]], expiration) ==> b.names[j] == primary[j])
  {
    GeneratedExactly(w, primary, failover);
    forall name {
      OnlineIsAlive(w, histories, expiration, name);
    }
  }
}
