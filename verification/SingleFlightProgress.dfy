/** Progress of the single-flight check: no lost wake-up, no deadlock, and a bound on every run. */
module SingleFlightProgress {
  import opened Basics
  import opened SingleFlight

  // ---------------------------------------------------------------- no lost wake-up, no deadlock

  /** A follower asleep on a filled slot has a leader that still holds the mutex and is about to notify. */
  lemma NoLostWakeUp(s: State, t: nat)
    requires Inv(s) && t < |s.threads| && s.threads[t].Asleep?
    ensures var f := s.threads[t].fid;
            f < |s.heap| && (s.heap[f].slot.Some? ==> s.heap[f].leader < |s.threads| && Enabled(s, NotifyAll(s.heap[f].leader)))
  {
    assert ThreadOk(s, t);
  }

  /** Waiting for a leader that panicked: the one way to be stuck. */
  predicate Orphaned(s: State, t: nat)
    requires t < |s.threads|
  {
    var pc := s.threads[t];
    pc.Asleep? && pc.fid < |s.heap| && s.heap[pc.fid].leader < |s.threads| && s.threads[s.heap[pc.fid].leader].Panicked?
  }

  /** Steps that the threads take by themselves, with every request returning. */
  predicate Productive(step: Step) {
    !step.Call? && !step.SpuriousWake? && !step.RequestPanics?
  }

  /** The next step of a thread that holds a slot's mutex; it needs nobody else. */
  lemma HolderCanStep(s: State, t: nat) returns (step: Step)
    requires Inv(s) && t < |s.threads| && s.threads[t].HoldsSlot()
    ensures Productive(step) && Enabled(s, step)
  {
    assert ThreadOk(s, t);
    match s.threads[t]
    case Locked(_, _, _) => step := Fill(t);
    case Filled(_, _, _) => step := NotifyAll(t);
    case Notified(_, _, _) => step := Release(t);
    case Inspecting(_, _) => step := Inspect(t);
  }

  lemma AwakeCanStep(s: State, t: nat) returns (step: Step)
    requires Inv(s) && t < |s.threads| && !s.threads[t].Finished() && !s.threads[t].Asleep?
    ensures Productive(step) && Enabled(s, step)
  {
    var pc := s.threads[t];
    if pc.HoldsSlot() {
      step := HolderCanStep(s, t);
    } else if pc.Start? {
      step := Enter(t);
    } else if pc.Requesting? {
      step := RequestReturns(t, Err(""));
    } else if pc.Published? {
      step := Remove(t);
    } else {
      assert ThreadOk(s, t) && FlightOk(s, pc.fid);
      if s.heap[pc.fid].holder.Some? {
        step := HolderCanStep(s, s.heap[pc.fid].holder.value);
      } else {
        step := if pc.HasResult? then LeaderLocks(t) else FollowerLocks(t);
      }
    }
  }

  /** While some thread is neither finished nor waiting for a leader that panicked, a step is enabled. */
  lemma SomeStepIsEnabled(s: State, t: nat) returns (step: Step)
    requires Inv(s) && t < |s.threads| && !s.threads[t].Finished() && !Orphaned(s, t)
    ensures Productive(step) && Enabled(s, step)
  {
    if s.threads[t].Asleep? {
      var f := s.threads[t].fid;
      assert ThreadOk(s, t) && FlightOk(s, f);
      step := AwakeCanStep(s, s.heap[f].leader);
    } else {
      step := AwakeCanStep(s, t);
    }
  }

  /**
    Where a run can stop: every thread has returned, panicked, or sleeps behind a leader that panicked.
    If no request panicked, everyone has returned and the flight map is empty.
   */
  lemma QuiescentStates(s: State)
    requires Inv(s) && forall step | Productive(step) :: !Enabled(s, step)
    ensures forall t | 0 <= t < |s.threads| :: s.threads[t].Finished() || Orphaned(s, t)
    ensures (forall t | 0 <= t < |s.threads| :: !s.threads[t].Panicked?) ==>
              (forall t | 0 <= t < |s.threads| :: s.threads[t].Done?) && s.flights == map[]
  {
    forall t | 0 <= t < |s.threads| ensures s.threads[t].Finished() || Orphaned(s, t) {
      if !s.threads[t].Finished() && !Orphaned(s, t) {
        var step := SomeStepIsEnabled(s, t);
      }
    }
    if forall t | 0 <= t < |s.threads| :: !s.threads[t].Panicked? {
      NobodyLeft(s);
    }
  }

  lemma NobodyLeft(s: State)
    requires MapOk(s)
    requires forall t | 0 <= t < |s.threads| :: s.threads[t].Finished() || Orphaned(s, t)
    requires forall t | 0 <= t < |s.threads| :: !s.threads[t].Panicked?
    ensures forall t | 0 <= t < |s.threads| :: s.threads[t].Done?
    ensures s.flights == map[]
  {
    assert s.flights.Keys == {};
  }

  /**
    What a panic costs: the flight of a leader that panicked stays in the map for good, so every later caller with
    the same request joins it, and nobody who has joined it ever returns.
   */
  lemma PanicStrandsTheRequest(s: State, steps: seq<Step>, n: State, t: nat)
    requires Inv(s) && IsRun(s, steps, n) && t < |s.threads| && s.threads[t].Panicked?
    ensures var pc := s.threads[t];
            && pc.key in n.flights && n.flights[pc.key] == pc.fid
            && (forall u | 0 <= u < |n.threads| && Enabled(n, Enter(u)) && n.threads[u].key == pc.key ::
                  Next(n, Enter(u)).threads[u] == Joined(pc.key, pc.fid))
            && (forall u | 0 <= u < |n.threads| && u != t && !n.threads[u].Start? && n.threads[u].fid == pc.fid ::
                  n.threads[u].Follows() && !n.threads[u].Done?)
  {
    RunKeepsInv(s, steps, n);
    RunKeepsFlightOf(s, steps, n, t);
    var f := s.threads[t].fid;
    assert ThreadOk(n, t) && FlightOk(n, f);
    forall u | 0 <= u < |n.threads| && u != t && !n.threads[u].Start? && n.threads[u].fid == f
      ensures n.threads[u].Follows() && !n.threads[u].Done?
    {
      assert ThreadOk(n, u);
    }
  }

  /** Two callers with the same request: the first leads, the second has joined. */
  function Joining(key: CheckRequest): State {
    State([Requesting(key, 0), Joined(key, 0)], [Flight(key, 0, None, None)], map[key := 0])
  }

  lemma TwoCallersJoin(key: CheckRequest)
    ensures IsRun(INIT, [Call(key), Call(key), Enter(0), Enter(1)], Joining(key))
  {
    var a := State([Start(key)], [], map[]);
    var b := State([Start(key), Start(key)], [], map[]);
    var c := State([Requesting(key, 0), Start(key)], [Flight(key, 0, None, None)], map[key := 0]);
    assert Next(INIT, Call(key)) == a && Next(a, Call(key)) == b && Next(b, Enter(0)) == c && Next(c, Enter(1)) == Joining(key);
    ThreeSteps(a, Call(key), b, Enter(0), c, Enter(1), Joining(key));
    var steps := [Call(key), Call(key), Enter(0), Enter(1)];
    assert steps[1..] == [Call(key), Enter(0), Enter(1)];
  }

  lemma ThreeSteps(s: State, p: Step, a: State, q: Step, b: State, r: Step, n: State)
    requires Enabled(s, p) && Next(s, p) == a && Enabled(a, q) && Next(a, q) == b && Enabled(b, r) && Next(b, r) == n
    ensures IsRun(s, [p, q, r], n)
  {
    hide Enabled, Next;
    assert [p, q, r][1..] == [q, r] && [q, r][1..] == [r] && [r][1..] == [];
    assert IsRun(n, [], n);
    assert IsRun(b, [r], n);
    assert IsRun(a, [q, r], n);
  }

  /** It happens: the leader panics, and the one that joined it sleeps. */
  lemma PanicStrandsAFollower(key: CheckRequest) returns (steps: seq<Step>, n: State)
    ensures IsRun(INIT, steps, n) && |n.threads| == 2 && n.threads[0].Panicked? && Orphaned(n, 1)
  {
    var s := Joining(key);
    var a := s.(threads := [Panicked(key, 0), Joined(key, 0)]);
    var b := State([Panicked(key, 0), Inspecting(key, 0)], [Flight(key, 0, None, Some(1))], s.flights);
    n := State([Panicked(key, 0), Asleep(key, 0)], s.heap, s.flights);
    assert Next(s, RequestPanics(0)) == a && Next(a, FollowerLocks(1)) == b && Next(b, Inspect(1)) == n;
    ThreeSteps(s, RequestPanics(0), a, FollowerLocks(1), b, Inspect(1), n);
    TwoCallersJoin(key);
    var before, after := [Call(key), Call(key), Enter(0), Enter(1)], [RequestPanics(0), FollowerLocks(1), Inspect(1)];
    RunsJoin(INIT, before, s, after, n);
    steps := before + after;
  }

  // ---------------------------------------------------------------- every run is bounded

  const CALL_WEIGHT: nat := 10
  const WAKE_WEIGHT: nat := 2

  /** How many steps a thread may still take; a follower's share shrinks when its slot is filled. */
  function Weight(pc: Pc, filled: bool): nat {
    match pc
    case Start(_) => CALL_WEIGHT
    case Requesting(_, _) => 7
    case HasResult(_, _, _) => 6
    case Locked(_, _, _) => 5
    case Filled(_, _, _) => 4
    case Notified(_, _, _) => 3
    case Published(_, _, _) => 2
    case Joined(_, _) => if filled then 3 else 9
    case Woken(_, _) => if filled then 3 else 9
    case Inspecting(_, _) => if filled then 2 else 8
    case Asleep(_, _) => 7
    case Panicked(_, _) => 0
    case Done(_, _, _, _) => 0
  }

  function SlotFilled(s: State, t: nat): bool
    requires t < |s.threads|
  {
    !s.threads[t].Start? && s.threads[t].fid < |s.heap| && s.heap[s.threads[t].fid].slot.Some?
  }

  function ThreadWeight(s: State, t: nat): nat
    requires t < |s.threads|
  {
    Weight(s.threads[t], SlotFilled(s, t))
  }

  function MeasureTo(s: State, n: nat): nat
    requires n <= |s.threads|
  {
    if n == 0 then 0 else MeasureTo(s, n - 1) + ThreadWeight(s, n - 1)
  }

  function Measure(s: State): nat {
    MeasureTo(s, |s.threads|)
  }

  /** If nobody's weight rises and `t`'s changes by `delta` or less, so does the sum. */
  lemma {:induction false} MeasureChanges(s: State, n: State, k: nat, t: nat, delta: int)
    requires k <= |s.threads| && k <= |n.threads| && t < |s.threads| && t < |n.threads|
    requires forall u | 0 <= u < k && u != t :: ThreadWeight(n, u) <= ThreadWeight(s, u)
    requires ThreadWeight(n, t) <= ThreadWeight(s, t) + delta
    ensures MeasureTo(n, k) <= MeasureTo(s, k) + (if t < k then delta else 0)
  {
    if k > 0 {
      MeasureChanges(s, n, k - 1, t, delta);
    }
  }

  lemma {:induction false} MeasureStays(s: State, n: State, k: nat)
    requires k <= |s.threads| && k <= |n.threads|
    requires forall u | 0 <= u < k :: ThreadWeight(n, u) <= ThreadWeight(s, u)
    ensures MeasureTo(n, k) <= MeasureTo(s, k)
  {
    if k > 0 {
      MeasureStays(s, n, k - 1);
    }
  }

  /** What a step may add to the measure. */
  function Gain(step: Step): int {
    if step.Call? then CALL_WEIGHT else if step.SpuriousWake? then WAKE_WEIGHT else -1
  }

  lemma OthersDoNotGain(s: State, step: Step, u: nat)
    requires Enabled(s, step) && u < |s.threads| && ThreadOk(s, u) && (step.Call? || (u != step.t && ThreadOk(s, step.t)))
    requires step.Call? || s.threads[step.t].Start? || FlightOk(s, s.threads[step.t].fid)
    ensures ThreadWeight(Next(s, step), u) <= ThreadWeight(s, u)
  {
  }

  lemma StepperGains(s: State, step: Step)
    requires Enabled(s, step) && !step.Call? && ThreadOk(s, step.t)
    requires s.threads[step.t].Start? || FlightOk(s, s.threads[step.t].fid)
    ensures ThreadWeight(Next(s, step), step.t) <= ThreadWeight(s, step.t) + Gain(step)
  {
  }

  lemma StepMeasure(s: State, step: Step)
    requires Inv(s) && Enabled(s, step)
    ensures Measure(Next(s, step)) <= Measure(s) + Gain(step)
  {
    hide ThreadOk, FlightOk, ThreadWeight;
    var n := Next(s, step);
    var k := |s.threads|;
    if step.Call? {
      forall u | 0 <= u < k ensures ThreadWeight(n, u) <= ThreadWeight(s, u) { OthersDoNotGain(s, step, u); }
      MeasureStays(s, n, k);
      NewcomerWeight(s, step);
    } else {
      ThreadHasFlight(s, step.t);
      forall u | 0 <= u < k && u != step.t ensures ThreadWeight(n, u) <= ThreadWeight(s, u) { OthersDoNotGain(s, step, u); }
      StepperGains(s, step);
      MeasureChanges(s, n, k, step.t, Gain(step));
    }
  }

  lemma NewcomerWeight(s: State, step: Step)
    requires step.Call?
    ensures ThreadWeight(Next(s, step), |s.threads|) == CALL_WEIGHT
  {
  }

  function Count(steps: seq<Step>, calls: bool): nat {
    if steps == [] then 0
    else (if (if calls then steps[0].Call? else steps[0].SpuriousWake?) then 1 else 0) + Count(steps[1..], calls)
  }

  /**
    Every run terminates: with `c` callers and `w` spurious wake-ups it has at most `11c + 3w` steps
    beyond what the threads already present may still take.
   */
  lemma {:induction false} RunsAreBounded(s: State, steps: seq<Step>, n: State)
    requires Inv(s) && IsRun(s, steps, n)
    ensures |steps| + Measure(n) <= Measure(s) + (CALL_WEIGHT + 1) * Count(steps, true) + (WAKE_WEIGHT + 1) * Count(steps, false)
    decreases steps
  {
    if steps != [] {
      StepMeasure(s, steps[0]);
      StepKeepsInv(s, steps[0]);
      RunsAreBounded(Next(s, steps[0]), steps[1..], n);
    }
  }
}
