/** Delivering the rollback event log from the device (updater/src/lib.rs). */
module EventDelivery {
  import opened UpdaterState
  import opened UpdaterDisk
  import EventLog

  /** Where events go: the server that accepted them, or the embedder's callback. */
  class Recipients {
    var posted: seq<RollbackEvent>
    var handed: seq<RollbackEvent>

    constructor ()
      ensures posted == [] && handed == []
    {
      posted, handed := [], [];
    }
  }

  ghost function WorldOf(updater: Updater, to: Recipients): EventLog.World<RollbackEvent>
    reads updater, to
  {
    EventLog.World(updater.events, to.posted, to.handed)
  }

  /** How many of the first `n` posts the server accepts before it refuses one. */
  function AcceptedPosts(accepts: nat -> bool, n: nat): (k: nat)
    ensures k <= n && (forall i | 0 <= i < k :: accepts(i)) && (k < n ==> !accepts(k))
  {
    if n == 0 then 0
    else
      var k := AcceptedPosts(accepts, n - 1);
      if k == n - 1 && accepts(n - 1) then n else k
  }

  /** `flush_rollback_events`: post in order, stop at the first failure, clear only when all were accepted. */
  method FlushRollbackEvents(updater: Updater, to: Recipients, configured: bool, accepts: nat -> bool) returns (ok: bool)
    modifies updater`events, to`posted
    ensures var accepted := AcceptedPosts(accepts, |old(updater.events)|);
            && WorldOf(updater, to) == EventLog.FlushWorld(old(WorldOf(updater, to)), configured, accepted)
            && (ok <==> !configured || accepted == |old(updater.events)|)
  {
    if !configured { return true; }
    var events := updater.events;
    if events == [] { return true; }
    var i := 0;
    while i < |events|
      invariant 0 <= i <= |events|
      invariant forall j | 0 <= j < i :: accepts(j)
      invariant updater.events == events == old(updater.events)
      invariant to.posted == old(to.posted) + events[..i]
      invariant to.handed == old(to.handed)
    {
      if !accepts(i) { return false; }
      to.posted := to.posted + [events[i]];
      i := i + 1;
    }
    updater.events := [];
    return true;
  }

  /** `fcb_drain_rollback_events`: hand every event to the callback, if there is one, then clear. */
  method DrainRollbackEvents(updater: Updater, to: Recipients, callback: bool) returns (count: nat)
    modifies updater`events, to`handed
    ensures WorldOf(updater, to) == EventLog.DrainWorld(old(WorldOf(updater, to)), callback)
    ensures count == |old(updater.events)|
  {
    var events := updater.events;
    var i := 0;
    while i < |events|
      invariant 0 <= i <= |events|
      invariant updater.events == events == old(updater.events)
      invariant to.handed == if callback then old(to.handed) + events[..i] else old(to.handed)
    {
      if callback { to.handed := to.handed + [events[i]]; }
      i := i + 1;
    }
    updater.events := [];
    return |events|;
  }
}
