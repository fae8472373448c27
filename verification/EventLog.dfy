/**
  The rollback event log (crates/fcb_core/src/state.rs) and its delivery
  (updater/src/lib.rs): a bounded log, posting that may stop midway, and draining.
 */
module EventLog {
  const MAX_ROLLBACK_EVENTS: nat := 50

  function Latest<E>(events: seq<E>): (r: seq<E>)
    ensures |r| == if |events| <= MAX_ROLLBACK_EVENTS then |events| else MAX_ROLLBACK_EVENTS
  {
    if |events| <= MAX_ROLLBACK_EVENTS then events else events[|events| - MAX_ROLLBACK_EVENTS..]
  }

  /** Append one event, then drop the oldest beyond the limit. */
  function AppendEvent<E>(log: seq<E>, e: E): seq<E> {
    Latest(log + [e])
  }

  /** The log, everything the server has accepted, and everything handed to a callback. */
  datatype World<E> = World(log: seq<E>, posted: seq<E>, handed: seq<E>)

  function Empty<E>(): World<E> { World([], [], []) }

  /** `accepted` is how many posts succeed before one fails. */
  datatype LogOp<E> =
    | Append(event: E)
    | Flush(configured: bool, accepted: nat)
    | Drain(callback: bool)

  function Posts<E>(w: World<E>, configured: bool, accepted: nat): nat {
    if !configured then 0 else if accepted < |w.log| then accepted else |w.log|
  }

  function FlushWorld<E>(w: World<E>, configured: bool, accepted: nat): World<E> {
    var k := Posts(w, configured, accepted);
    World(if configured && k == |w.log| then [] else w.log, w.posted + w.log[..k], w.handed)
  }

  function DrainWorld<E>(w: World<E>, callback: bool): World<E> {
    World([], w.posted, if callback then w.handed + w.log else w.handed)
  }

  function Apply<E>(w: World<E>, op: LogOp<E>): World<E> {
    match op
    case Append(e) => w.(log := AppendEvent(w.log, e))
    case Flush(configured, accepted) => FlushWorld(w, configured, accepted)
    case Drain(callback) => DrainWorld(w, callback)
  }

  function Run<E>(w: World<E>, ops: seq<LogOp<E>>): World<E> {
    if ops == [] then w else Apply(Run(w, ops[..|ops| - 1]), ops[|ops| - 1])
  }

  /** Every event ever appended. */
  function Appended<E>(ops: seq<LogOp<E>>): seq<E> {
    if ops == [] then []
    else Appended(ops[..|ops| - 1]) + (if ops[|ops| - 1].Append? then [ops[|ops| - 1].event] else [])
  }

  /** Does `op` clear the log of `w`? */
  predicate Clears<E>(w: World<E>, op: LogOp<E>) {
    op.Drain? || (op.Flush? && op.configured && op.accepted >= |w.log|)
  }

  /** How many events had been appended when the log was last cleared. */
  function ClearedAt<E>(ops: seq<LogOp<E>>): (n: nat)
    ensures n <= |Appended(ops)|
  {
    if ops == [] then 0
    else if Clears(Run(Empty(), ops[..|ops| - 1]), ops[|ops| - 1]) then |Appended(ops)|
    else ClearedAt(ops[..|ops| - 1])
  }

  lemma LatestOfLonger<E>(events: seq<E>, e: E)
    ensures Latest(Latest(events) + [e]) == Latest(events + [e])
  {
  }

  /** The log is exactly the last at most fifty events appended since the last clear. */
  lemma {:induction false} LogIsLatestSinceClear<E>(ops: seq<LogOp<E>>)
    ensures Run(Empty(), ops).log == Latest(Appended(ops)[ClearedAt(ops)..])
  {
    if ops != [] {
      var front, last := ops[..|ops| - 1], ops[|ops| - 1];
      LogIsLatestSinceClear(front);
      var since := Appended(front)[ClearedAt(front)..];
      if last.Append? {
        LatestOfLonger(since, last.event);
        assert Appended(ops)[ClearedAt(ops)..] == since + [last.event];
      } else {
        assert Appended(ops) == Appended(front);
      }
    }
  }

  // ---------------------------------------------------------------- following one event

  function Renamed<E>(op: LogOp<E>, n: nat): LogOp<nat> {
    match op
    case Append(_) => Append(n)
    case Flush(configured, accepted) => Flush(configured, accepted)
    case Drain(callback) => Drain(callback)
  }

  /** The same calls, with each event replaced by its position among all events appended. */
  function Numbered<E>(ops: seq<LogOp<E>>): (n: seq<LogOp<nat>>)
    ensures |n| == |ops|
  {
    if ops == [] then []
    else Numbered(ops[..|ops| - 1]) + [Renamed(ops[|ops| - 1], |Appended(ops[..|ops| - 1])|)]
  }

  /** Where each position is after the calls. */
  function Track<E>(ops: seq<LogOp<E>>): World<nat> {
    Run(Empty(), Numbered(ops))
  }

  lemma TrackStep<E>(front: seq<LogOp<E>>, last: LogOp<E>)
    ensures Track(front + [last]) == Apply(Track(front), Renamed(last, |Appended(front)|))
    ensures Run(Empty(), front + [last]) == Apply(Run(Empty(), front), last)
    ensures Appended(front + [last]) == Appended(front) + (if last.Append? then [last.event] else [])
    ensures ClearedAt(front + [last]) ==
            if Clears(Run(Empty(), front), last) then |Appended(front + [last])| else ClearedAt(front)
  {
    var ops := front + [last];
    assert ops[..|front|] == front;
    assert Numbered(ops)[..|front|] == Numbered(front);
  }

  predicate Within(positions: seq<nat>, n: nat) {
    forall i | 0 <= i < |positions| :: positions[i] < n
  }

  function Events<E>(all: seq<E>, positions: seq<nat>): seq<E>
    requires Within(positions, |all|)
  {
    seq(|positions|, i requires 0 <= i < |positions| => all[positions[i]])
  }

  /** `t` is `w` with positions in `all` for events. */
  ghost predicate Stands<E>(t: World<nat>, all: seq<E>, w: World<E>) {
    && Within(t.log, |all|) && Within(t.posted, |all|) && Within(t.handed, |all|)
    && w == World(Events(all, t.log), Events(all, t.posted), Events(all, t.handed))
  }

  lemma EventsJoin<E>(all: seq<E>, a: seq<nat>, b: seq<nat>)
    requires Within(a, |all|) && Within(b, |all|)
    ensures Within(a + b, |all|) && Events(all, a + b) == Events(all, a) + Events(all, b)
  {
  }

  lemma EventsGrow<E>(all: seq<E>, e: E, a: seq<nat>)
    requires Within(a, |all|)
    ensures Within(a, |all + [e]|) && Events(all + [e], a) == Events(all, a)
  {
  }

  lemma LatestStands<E>(all: seq<E>, a: seq<nat>)
    requires Within(a, |all|)
    ensures Within(Latest(a), |all|) && Events(all, Latest(a)) == Latest(Events(all, a))
  {
  }

  lemma StandsStep<E>(t: World<nat>, all: seq<E>, w: World<E>, op: LogOp<E>)
    requires Stands(t, all, w)
    ensures Stands(Apply(t, Renamed(op, |all|)), all + (if op.Append? then [op.event] else []), Apply(w, op))
  {
    hide Events, Latest, Within;
    match op
    case Append(e) =>
      EventsGrow(all, e, t.log);
      EventsGrow(all, e, t.posted);
      EventsGrow(all, e, t.handed);
      OneEvent(all, e);
      EventsJoin(all + [e], t.log, [|all|]);
      LatestStands(all + [e], t.log + [|all|]);
    case Flush(configured, accepted) =>
      EventsPrefix(all, t.log, Posts(t, configured, accepted));
      EventsJoin(all, t.posted, t.log[..Posts(t, configured, accepted)]);
      NoEvents(all);
      assert all + [] == all;
    case Drain(callback) =>
      EventsJoin(all, t.handed, t.log);
      NoEvents(all);
      assert all + [] == all;
  }

  lemma OneEvent<E>(all: seq<E>, e: E)
    ensures Within([|all|], |all + [e]|) && Events(all + [e], [|all|]) == [e]
  {
  }

  lemma NoEvents<E>(all: seq<E>)
    ensures Within([], |all|) && Events(all, []) == []
  {
  }

  lemma EventsPrefix<E>(all: seq<E>, a: seq<nat>, k: nat)
    requires Within(a, |all|) && k <= |a|
    ensures |Events(all, a)| == |a| && Within(a[..k], |all|) && Events(all, a[..k]) == Events(all, a)[..k]
  {
  }

  /** The events at the tracked positions are the events of the real run, in the log, at the server and with the callback. */
  lemma {:induction false} TrackingErases<E>(ops: seq<LogOp<E>>)
    ensures Stands(Track(ops), Appended(ops), Run(Empty(), ops))
  {
    hide Track, Stands;
    if ops == [] {
      EmptyStands<E>();
    } else {
      var front, last := ops[..|ops| - 1], ops[|ops| - 1];
      assert ops == front + [last];
      TrackingErases(front);
      TrackStep(front, last);
      StandsStep(Track(front), Appended(front), Run(Empty(), front), last);
    }
  }

  lemma EmptyStands<E>()
    ensures Stands<E>(Track<E>([]), [], Empty())
  {
  }

  lemma EmptyTrack<E>()
    ensures Track<E>([]) == Empty()
  {
  }

  function Interval(from: nat, to: nat): seq<nat>
    requires from <= to
  {
    seq(to - from, k requires k >= 0 => from + k)
  }

  function LogStart<E>(ops: seq<LogOp<E>>): (n: nat)
    ensures n <= |Appended(ops)|
  {
    if ClearedAt(ops) + MAX_ROLLBACK_EVENTS < |Appended(ops)| then |Appended(ops)| - MAX_ROLLBACK_EVENTS else ClearedAt(ops)
  }

  lemma IntervalLatest(from: nat, to: nat)
    requires from <= to <= from + MAX_ROLLBACK_EVENTS
    ensures Latest(Interval(from, to) + [to]) == Interval(if to + 1 <= from + MAX_ROLLBACK_EVENTS then from else from + 1, to + 1)
  {
  }

  lemma {:induction false} TrackedLog<E>(ops: seq<LogOp<E>>)
    ensures Track(ops).log == Interval(LogStart(ops), |Appended(ops)|)
  {
    hide Track, Run, ClearedAt, Appended, Latest;
    if ops == [] {
      assert Track(ops) == Empty() by { EmptyTrack<E>(); }
      LogIsLatestSinceClear(ops);
      NothingAppended<E>();
    } else {
      var front, last := ops[..|ops| - 1], ops[|ops| - 1];
      assert ops == front + [last];
      TrackedLog(front);
      TrackStep(front, last);
      LogIsLatestSinceClear(front);
      IntervalLatest(LogStart(front), |Appended(front)|);
    }
  }

  lemma NothingAppended<E>()
    ensures Appended<E>([]) == []
  {
  }

  ghost predicate InLog<E>(ops: seq<LogOp<E>>, i: nat) {
    i in Track(ops).log
  }

  /** A post that the server accepted, or a callback, carried the `i`th event. */
  ghost predicate Delivered<E>(ops: seq<LogOp<E>>, i: nat) {
    i in Track(ops).posted || i in Track(ops).handed
  }

  /** Fifty newer events pushed the `i`th one out before the log was next cleared. */
  ghost predicate Evicted<E>(ops: seq<LogOp<E>>, i: nat) {
    exists t: nat | t <= |ops| :: ClearedAt(ops[..t]) <= i && i + 50 < |Appended(ops[..t])|
  }

  /** A drain without a callback found the `i`th event in the log, undelivered. */
  ghost predicate Discarded<E>(ops: seq<LogOp<E>>, i: nat) {
    exists t: nat | t < |ops| :: ops[t].Drain? && !ops[t].callback && InLog(ops[..t], i) && !Delivered(ops[..t], i)
  }

  lemma InLogIff<E>(ops: seq<LogOp<E>>, i: nat)
    ensures InLog(ops, i) <==> ClearedAt(ops) <= i < |Appended(ops)| <= i + 50
  {
    TrackedLog(ops);
    var log := Interval(LogStart(ops), |Appended(ops)|);
    if LogStart(ops) <= i < |Appended(ops)| {
      assert log[i - LogStart(ops)] == i;
    }
  }

  /** A flush posts what it posts oldest first, each event once, and stops at the first refusal; a drain hands over all. */
  lemma DeliveredInOrder<E>(front: seq<LogOp<E>>, last: LogOp<E>)
    ensures var t, u := Track(front), Track(front + [last]);
            var from, to := LogStart(front), |Appended(front)|;
            && u.posted == t.posted + (if last.Flush? && last.configured
                                       then Interval(from, if from + last.accepted < to then from + last.accepted else to) else [])
            && u.handed == t.handed + (if last.Drain? && last.callback then Interval(from, to) else [])
            && (last.Flush? ==> u.log == if last.configured && from + last.accepted >= to then [] else t.log)
            && (last.Drain? ==> u.log == [])
  {
    hide Track, Run, ClearedAt, Appended, Latest, LogStart;
    TrackStep(front, last);
    TrackedLog(front);
    var from, to := LogStart(front), |Appended(front)|;
    if last.Flush? {
      assert forall k: nat | from + k <= to :: Interval(from, to)[..k] == Interval(from, from + k);
      assert Track(front).posted == Track(front).posted + [];
    }
  }

  /** What one call does to one event. */
  lemma EventStep<E>(front: seq<LogOp<E>>, last: LogOp<E>, i: nat)
    requires i < |Appended(front)|
    ensures var ops := front + [last];
            && (InLog(ops, i) ==> InLog(front, i))
            && (Delivered(front, i) ==> Delivered(ops, i))
            && (Delivered(ops, i) ==> Delivered(front, i) || InLog(front, i))
            && (InLog(front, i) ==>
                  || InLog(ops, i) || Delivered(ops, i) || (last.Drain? && !last.callback)
                  || i + MAX_ROLLBACK_EVENTS < |Appended(ops)|)
            && (last.Drain? && !last.callback ==> !InLog(ops, i) && (Delivered(ops, i) ==> Delivered(front, i)))
            && (i + MAX_ROLLBACK_EVENTS < |Appended(ops)| && !InLog(front, i) ==>
                  i + MAX_ROLLBACK_EVENTS < |Appended(front)| || i < ClearedAt(front))
  {
    hide Track, Run, ClearedAt, Appended, Latest;
    var ops := front + [last];
    TrackStep(front, last);
    InLogIff(front, i);
    InLogIff(ops, i);
    var log := Track(front).log;
    assert log[..|log|] == log;
  }

  lemma EvictedPrefix<E>(front: seq<LogOp<E>>, last: LogOp<E>, i: nat)
    ensures Evicted(front + [last], i) <==>
            || Evicted(front, i)
            || (ClearedAt(front + [last]) <= i && i + MAX_ROLLBACK_EVENTS < |Appended(front + [last])|)
  {
    hide ClearedAt, Appended;
    var ops := front + [last];
    assert ops[..|ops|] == ops;
    assert forall t: nat | t <= |front| :: ops[..t] == front[..t];
  }

  lemma DiscardedPrefix<E>(front: seq<LogOp<E>>, last: LogOp<E>, i: nat)
    ensures Discarded(front + [last], i) <==>
            Discarded(front, i) || (last.Drain? && !last.callback && InLog(front, i) && !Delivered(front, i))
  {
    hide InLog, Delivered;
    var ops := front + [last];
    assert ops[|front|] == last && ops[..|front|] == front;
    assert forall t: nat | t <= |front| :: ops[..t] == front[..t];
  }

  /** An evicted event is older than everything in the log. */
  lemma {:induction false} EvictedIsGone<E>(ops: seq<LogOp<E>>, i: nat)
    requires Evicted(ops, i)
    ensures !InLog(ops, i) && i < |Appended(ops)|
  {
    hide InLog, Evicted, ClearedAt;
    InLogIff(ops, i);
    if ops == [] {
      NothingEvicted<E>(i);
    } else {
      var front, last := ops[..|ops| - 1], ops[|ops| - 1];
      assert ops == front + [last];
      EvictedPrefix(front, last, i);
      if Evicted(front, i) {
        EvictedIsGone(front, i);
        EventStep(front, last, i);
      }
    }
  }

  lemma NothingEvicted<E>(i: nat)
    ensures !Evicted<E>([], i)
  {
  }

  /**
    Where every event is, over any interleaving of appends, flushes that may fail midway, and drains: it was posted or
    handed over, evicted by fifty newer ones, or is still in the log, unless a drain without a callback discarded it.
   */
  lemma {:induction false} EventsAreConserved<E>(ops: seq<LogOp<E>>, i: nat)
    requires i < |Appended(ops)|
    ensures Delivered(ops, i) || Evicted(ops, i) || InLog(ops, i) || Discarded(ops, i)
  {
    hide InLog, Delivered, Evicted, Discarded, ClearedAt;
    var front, last := ops[..|ops| - 1], ops[|ops| - 1];
    assert ops == front + [last];
    InLogIff(ops, i);
    if i < |Appended(front)| {
      EventsAreConserved(front, i);
      EventStep(front, last, i);
      EvictedPrefix(front, last, i);
      DiscardedPrefix(front, last, i);
      InLogIff(front, i);
      TrackStep(front, last);
    } else {
      TrackStep(front, last);
      LogIsLatestSinceClear(front);
    }
  }

  /** A discarded event is lost for good. */
  lemma {:induction false} DiscardedIsLost<E>(ops: seq<LogOp<E>>, i: nat)
    requires Discarded(ops, i)
    ensures i < |Appended(ops)| && !Delivered(ops, i) && !Evicted(ops, i) && !InLog(ops, i)
  {
    hide InLog, Delivered, Evicted, Discarded, ClearedAt;
    if ops == [] {
      NothingDiscarded<E>(i);
    } else {
      var front, last := ops[..|ops| - 1], ops[|ops| - 1];
      assert ops == front + [last];
      DiscardedPrefix(front, last, i);
      EvictedPrefix(front, last, i);
      InLogIff(front, i);
      if Discarded(front, i) { DiscardedIsLost(front, i); }
      if Evicted(front, i) { EvictedIsGone(front, i); }
      EventStep(front, last, i);
      TrackStep(front, last);
      InLogIff(ops, i);
      if ClearedAt(front) <= i && i + MAX_ROLLBACK_EVENTS < |Appended(front)| { NowhereIsEvicted(front, i); }
    }
  }

  lemma NothingDiscarded<E>(i: nat)
    ensures !Discarded<E>([], i)
  {
  }

  lemma NowhereIsEvicted<E>(ops: seq<LogOp<E>>, i: nat)
    requires ClearedAt(ops) <= i && i + MAX_ROLLBACK_EVENTS < |Appended(ops)|
    ensures Evicted(ops, i)
  {
    assert ops[..|ops|] == ops;
  }

  /** The exact condition for a loss: an event is nowhere to be found if and only if some drain without a callback discarded it. */
  lemma LostIffDiscarded<E>(ops: seq<LogOp<E>>, i: nat)
    requires i < |Appended(ops)|
    ensures !(Delivered(ops, i) || Evicted(ops, i) || InLog(ops, i)) <==> Discarded(ops, i)
  {
    hide *;
    EventsAreConserved(ops, i);
    if Discarded(ops, i) { DiscardedIsLost(ops, i); }
  }

  /** Even when an equal event was delivered before it. */
  lemma SecondResetIsLost<E>(e: E)
    ensures Discarded([Append(e), Drain(true), Append(e), Drain(false)], 1)
  {
    var ops := [Append(e), Drain(true), Append(e), Drain(false)];
    var a, b, c := ops[..1], ops[..2], ops[..3];
    assert a == [] + [Append(e)] && b == a + [Drain(true)] && c == b + [Append(e)];
    EmptyTrack<E>();
    TrackStep([], Append(e));
    TrackStep(a, Drain(true));
    TrackStep(b, Append(e));
  }
}
