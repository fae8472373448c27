/**
  The single-flight update check (updater/src/lib.rs, `check_for_update_singleflight`) as a
  transition system over any number of threads and requests. Each lock region of the flight map is one
  step; the slot's mutex and condition variable are explicit, because their interplay is the point.
 */
module SingleFlight {
  import opened Basics

  datatype CheckRequest = CheckRequest(
    serverUrl: string, orgId: Option<string>, appId: string, releaseVersion: string, platform: string,
    arch: string, channel: string, currentPatchNumber: u32, clientId: string)

  datatype CheckResponse = CheckResponse(patchAvailable: bool, patchNumber: Option<u32>)

  type Outcome = Result<CheckResponse, string>

  /** Where a thread is. The leader's states come first, then the follower's. */
  datatype Pc =
    | Start(key: CheckRequest)
    | Requesting(key: CheckRequest, fid: nat)
    | HasResult(key: CheckRequest, fid: nat, outcome: Outcome)
    | Locked(key: CheckRequest, fid: nat, outcome: Outcome)
    | Filled(key: CheckRequest, fid: nat, outcome: Outcome)
    | Notified(key: CheckRequest, fid: nat, outcome: Outcome)
    | Published(key: CheckRequest, fid: nat, outcome: Outcome)
    | Panicked(key: CheckRequest, fid: nat)
    | Joined(key: CheckRequest, fid: nat)
    | Inspecting(key: CheckRequest, fid: nat)
    | Asleep(key: CheckRequest, fid: nat)
    | Woken(key: CheckRequest, fid: nat)
    | Done(key: CheckRequest, fid: nat, outcome: Outcome, led: bool)
  {
    predicate Leads() {
      Requesting? || HasResult? || Locked? || Filled? || Notified? || Published? || Panicked? || (Done? && led)
    }

    predicate Follows() {
      Joined? || Inspecting? || Asleep? || Woken? || (Done? && !led)
    }

    predicate HoldsSlot() {
      Locked? || Filled? || Notified? || Inspecting?
    }

    predicate HasFilled() {
      Filled? || Notified? || Published? || Done?
    }

    predicate Finished() {
      Done? || Panicked?
    }
  }

  /** A `CheckFlight`: the slot, who holds its mutex, and who created it for which request. */
  datatype Flight = Flight(key: CheckRequest, leader: nat, slot: Option<Outcome>, holder: Option<nat>)

  datatype State = State(threads: seq<Pc>, heap: seq<Flight>, flights: map<CheckRequest, nat>)

  const INIT: State := State([], [], map[])

  datatype Step =
    | Call(key: CheckRequest)
    | Enter(t: nat)
    | RequestReturns(t: nat, outcome: Outcome)
    | RequestPanics(t: nat)
    | LeaderLocks(t: nat)
    | Fill(t: nat)
    | NotifyAll(t: nat)
    | Release(t: nat)
    | Remove(t: nat)
    | FollowerLocks(t: nat)
    | Inspect(t: nat)
    | SpuriousWake(t: nat)

  predicate SlotFree(s: State, t: nat)
    requires t < |s.threads| && !s.threads[t].Start?
  {
    var f := s.threads[t].fid;
    f < |s.heap| && s.heap[f].holder.None?
  }

  predicate HasSlot(s: State, t: nat)
    requires t < |s.threads|
  {
    !s.threads[t].Start? && s.threads[t].fid < |s.heap|
  }

  predicate Enabled(s: State, step: Step) {
    step.Call? ||
    (step.t < |s.threads| &&
     var pc := s.threads[step.t];
     match step
     case Call(_) => true
     case Enter(_) => pc.Start?
     case RequestReturns(_, _) => pc.Requesting?
     case RequestPanics(_) => pc.Requesting?
     case LeaderLocks(t) => pc.HasResult? && SlotFree(s, t)
     case Fill(t) => pc.Locked? && HasSlot(s, t)
     case NotifyAll(t) => pc.Filled?
     case Release(t) => pc.Notified? && HasSlot(s, t)
     case Remove(_) => pc.Published?
     case FollowerLocks(t) => (pc.Joined? || pc.Woken?) && SlotFree(s, t)
     case Inspect(t) => pc.Inspecting? && HasSlot(s, t)
     case SpuriousWake(_) => pc.Asleep?)
  }

  function WakeAll(threads: seq<Pc>, f: nat): (r: seq<Pc>)
    ensures |r| == |threads|
    ensures forall i | 0 <= i < |r| ::
              r[i] == if threads[i].Asleep? && threads[i].fid == f then Woken(threads[i].key, f) else threads[i]
  {
    seq(|threads|, i requires 0 <= i < |threads| =>
      if threads[i].Asleep? && threads[i].fid == f then Woken(threads[i].key, f) else threads[i])
  }

  function Move(s: State, t: nat, pc: Pc): State
    requires t < |s.threads|
  {
    s.(threads := s.threads[t := pc])
  }

  function Next(s: State, step: Step): State
    requires Enabled(s, step)
  {
    if step.Call? then s.(threads := s.threads + [Start(step.key)])
    else
      var t, pc := step.t, s.threads[step.t];
      match step
      case Enter(_) =>
        // One region under the map's mutex: join the flight for this request, or insert a new one.
        if pc.key in s.flights then Move(s, t, Joined(pc.key, s.flights[pc.key]))
        else
          State(s.threads[t := Requesting(pc.key, |s.heap|)],
                s.heap + [Flight(pc.key, t, None, None)],
                s.flights[pc.key := |s.heap|])
      case RequestReturns(_, outcome) => Move(s, t, HasResult(pc.key, pc.fid, outcome))
      case RequestPanics(_) => Move(s, t, Panicked(pc.key, pc.fid))
      case LeaderLocks(_) =>
        Move(s, t, Locked(pc.key, pc.fid, pc.outcome)).(heap := s.heap[pc.fid := s.heap[pc.fid].(holder := Some(t))])
      case Fill(_) =>
        Move(s, t, Filled(pc.key, pc.fid, pc.outcome)).(heap := s.heap[pc.fid := s.heap[pc.fid].(slot := Some(pc.outcome))])
      case NotifyAll(_) => s.(threads := WakeAll(s.threads, pc.fid)[t := Notified(pc.key, pc.fid, pc.outcome)])
      case Release(_) =>
        Move(s, t, Published(pc.key, pc.fid, pc.outcome)).(heap := s.heap[pc.fid := s.heap[pc.fid].(holder := None)])
      case Remove(_) => Move(s, t, Done(pc.key, pc.fid, pc.outcome, true)).(flights := s.flights - {pc.key})
      case FollowerLocks(_) =>
        Move(s, t, Inspecting(pc.key, pc.fid)).(heap := s.heap[pc.fid := s.heap[pc.fid].(holder := Some(t))])
      case Inspect(_) =>
        // `while slot.is_none() { wait }`: waiting releases the mutex and sleeps in one step.
        var slot := s.heap[pc.fid].slot;
        Move(s, t, if slot.None? then Asleep(pc.key, pc.fid) else Done(pc.key, pc.fid, slot.value, false))
          .(heap := s.heap[pc.fid := s.heap[pc.fid].(holder := None)])
      case SpuriousWake(_) => Move(s, t, Woken(pc.key, pc.fid))
  }

  ghost predicate IsRun(s: State, steps: seq<Step>, t: State)
    decreases steps
  {
    if steps == [] then s == t else Enabled(s, steps[0]) && IsRun(Next(s, steps[0]), steps[1..], t)
  }

  // ---------------------------------------------------------------- the invariant

  /** The leader of a flight is where the slot says it is, and the map knows the flight until it is removed. */
  ghost predicate FlightOk(s: State, f: nat)
    requires f < |s.heap|
  {
    var flight := s.heap[f];
    && flight.leader < |s.threads|
    && var pc := s.threads[flight.leader];
    && pc.Leads() && pc.fid == f && pc.key == flight.key
    && flight.slot == (if pc.HasFilled() then Some(pc.outcome) else None)
    && (pc.Done? || (flight.key in s.flights && s.flights[flight.key] == f))
    && (flight.holder.Some? ==>
          flight.holder.value < |s.threads| && s.threads[flight.holder.value].HoldsSlot() && s.threads[flight.holder.value].fid == f)
  }

  ghost predicate ThreadOk(s: State, t: nat)
    requires t < |s.threads|
  {
    var pc := s.threads[t];
    pc.Start? ||
    (&& pc.fid < |s.heap|
     && s.heap[pc.fid].key == pc.key
     && (pc.Leads() ==> s.heap[pc.fid].leader == t)
     && (pc.HoldsSlot() ==> s.heap[pc.fid].holder == Some(t))
     && (pc.Done? ==> s.heap[pc.fid].slot == Some(pc.outcome))
     && (pc.Asleep? ==> s.heap[pc.fid].slot.None? || SleepersWillBeNotified(s, pc.fid)))
  }

  /** The slot is filled but the leader, still holding the mutex, has yet to notify. */
  ghost predicate SleepersWillBeNotified(s: State, f: nat)
    requires f < |s.heap|
  {
    s.heap[f].leader < |s.threads| && s.threads[s.heap[f].leader].Filled? && s.threads[s.heap[f].leader].fid == f
  }

  ghost predicate EntryOk(s: State, k: CheckRequest)
    requires k in s.flights
  {
    var f := s.flights[k];
    f < |s.heap| && s.heap[f].key == k && s.heap[f].leader < |s.threads| && !s.threads[s.heap[f].leader].Done?
  }

  ghost predicate MapOk(s: State) {
    forall k | k in s.flights :: EntryOk(s, k)
  }

  ghost predicate Inv(s: State) {
    && (forall f | 0 <= f < |s.heap| :: FlightOk(s, f))
    && (forall t | 0 <= t < |s.threads| :: ThreadOk(s, t))
    && MapOk(s)
  }

  lemma CallKeepsInv(s: State, key: CheckRequest)
    requires Inv(s)
    ensures Inv(Next(s, Call(key)))
  {
    var n := Next(s, Call(key));
    forall f | 0 <= f < |n.heap| ensures FlightOk(n, f) { assert FlightOk(s, f); }
    forall t | 0 <= t < |n.threads| ensures ThreadOk(n, t) {
      if t < |s.threads| { assert ThreadOk(s, t); }
    }
  }

  lemma JoinKeepsInv(s: State, t: nat)
    requires Inv(s) && Enabled(s, Enter(t)) && s.threads[t].key in s.flights
    ensures Inv(Next(s, Enter(t)))
  {
    var n := Next(s, Enter(t));
    forall f | 0 <= f < |n.heap| ensures FlightOk(n, f) { assert FlightOk(s, f); }
    forall u | 0 <= u < |n.threads| ensures ThreadOk(n, u) { assert ThreadOk(s, u); }
    assert forall f | 0 <= f < |n.heap| :: s.heap[f].leader != t by {
      forall f | 0 <= f < |n.heap| ensures s.heap[f].leader != t { assert FlightOk(s, f); }
    }
  }

  lemma InsertKeepsInv(s: State, t: nat)
    requires Inv(s) && Enabled(s, Enter(t)) && s.threads[t].key !in s.flights
    ensures Inv(Next(s, Enter(t)))
  {
    var n := Next(s, Enter(t));
    forall f | 0 <= f < |n.heap| ensures FlightOk(n, f) { if f < |s.heap| { assert FlightOk(s, f); } }
    forall u | 0 <= u < |n.threads| ensures ThreadOk(n, u) { assert ThreadOk(s, u); }
    forall f | 0 <= f < |s.heap| ensures s.heap[f].leader != t { assert FlightOk(s, f); }
  }

  /** Steps that write the flight's slot or its mutex. */
  predicate OnSlot(step: Step) {
    step.LeaderLocks? || step.Fill? || step.Release? || step.FollowerLocks? || step.Inspect?
  }

  /** Steps that write neither a flight nor, except for `Remove`, the map. */
  predicate OffSlot(step: Step) {
    step.RequestReturns? || step.RequestPanics? || step.NotifyAll? || step.Remove? || step.SpuriousWake?
  }

  lemma LockStepKeepsFlight(s: State, step: Step, f: nat)
    requires Enabled(s, step) && (step.LeaderLocks? || step.FollowerLocks? || step.Release?)
    requires f < |s.heap| && FlightOk(s, f) && ThreadOk(s, step.t) && FlightOk(s, s.threads[step.t].fid)
    ensures FlightOk(Next(s, step), f)
  {
  }

  lemma SlotStepKeepsFlight(s: State, step: Step, f: nat)
    requires Enabled(s, step) && (step.Fill? || step.Inspect?)
    requires f < |s.heap| && FlightOk(s, f) && ThreadOk(s, step.t) && FlightOk(s, s.threads[step.t].fid)
    ensures FlightOk(Next(s, step), f)
  {
  }

  lemma OtherStepKeepsFlight(s: State, step: Step, f: nat)
    requires Enabled(s, step) && OffSlot(step)
    requires f < |s.heap| && FlightOk(s, f) && ThreadOk(s, step.t) && FlightOk(s, s.threads[step.t].fid)
    ensures FlightOk(Next(s, step), f)
  {
  }

  lemma LockStepKeepsThread(s: State, step: Step, u: nat)
    requires Enabled(s, step) && (step.LeaderLocks? || step.FollowerLocks? || step.Release?)
    requires u < |s.threads| && ThreadOk(s, u) && ThreadOk(s, step.t)
    requires FlightOk(s, s.threads[step.t].fid) && (s.threads[u].Start? || FlightOk(s, s.threads[u].fid))
    ensures ThreadOk(Next(s, step), u)
  {
  }

  lemma SlotStepKeepsThread(s: State, step: Step, u: nat)
    requires Enabled(s, step) && (step.Fill? || step.Inspect?)
    requires u < |s.threads| && ThreadOk(s, u) && ThreadOk(s, step.t)
    requires FlightOk(s, s.threads[step.t].fid) && (s.threads[u].Start? || FlightOk(s, s.threads[u].fid))
    ensures ThreadOk(Next(s, step), u)
  {
  }

  lemma OtherStepKeepsThread(s: State, step: Step, u: nat)
    requires Enabled(s, step) && OffSlot(step)
    requires u < |s.threads| && ThreadOk(s, u) && ThreadOk(s, step.t)
    requires FlightOk(s, s.threads[step.t].fid) && (s.threads[u].Start? || FlightOk(s, s.threads[u].fid))
    ensures ThreadOk(Next(s, step), u)
  {
  }

  lemma SlotStepKeepsEntry(s: State, step: Step, k: CheckRequest)
    requires Enabled(s, step) && OnSlot(step) && ThreadOk(s, step.t)
    requires k in s.flights && EntryOk(s, k) && FlightOk(s, s.flights[k])
    ensures k in Next(s, step).flights && EntryOk(Next(s, step), k)
  {
  }

  lemma OtherStepKeepsEntry(s: State, step: Step, k: CheckRequest)
    requires Enabled(s, step) && OffSlot(step)
    requires k in Next(s, step).flights && k in s.flights && EntryOk(s, k) && FlightOk(s, s.flights[k])
    ensures EntryOk(Next(s, step), k)
  {
  }

  lemma StepKeepsInv(s: State, step: Step)
    requires Inv(s) && Enabled(s, step)
    ensures Inv(Next(s, step))
  {
    hide FlightOk, ThreadOk;
    if step.Call? {
      CallKeepsInv(s, step.key);
    } else if step.Enter? {
      if s.threads[step.t].key in s.flights { JoinKeepsInv(s, step.t); } else { InsertKeepsInv(s, step.t); }
    } else {
      var n := Next(s, step);
      ThreadHasFlight(s, step.t);
      forall f | 0 <= f < |n.heap| ensures FlightOk(n, f) {
        if step.Fill? || step.Inspect? { SlotStepKeepsFlight(s, step, f); }
        else if OnSlot(step) { LockStepKeepsFlight(s, step, f); }
        else { OtherStepKeepsFlight(s, step, f); }
      }
      forall k | k in n.flights ensures EntryOk(n, k) {
        assert k in s.flights;
        if OnSlot(step) { SlotStepKeepsEntry(s, step, k); } else { OtherStepKeepsEntry(s, step, k); }
      }
      forall u | 0 <= u < |n.threads| ensures ThreadOk(n, u) {
        ThreadHasFlight(s, u);
        if step.Fill? || step.Inspect? { SlotStepKeepsThread(s, step, u); }
        else if OnSlot(step) { LockStepKeepsThread(s, step, u); }
        else { OtherStepKeepsThread(s, step, u); }
      }
    }
  }

  lemma ThreadHasFlight(s: State, t: nat)
    requires Inv(s) && t < |s.threads|
    ensures !s.threads[t].Start? ==> s.threads[t].fid < |s.heap|
  {
    assert ThreadOk(s, t);
  }

  lemma InitInv()
    ensures Inv(INIT)
  {
  }

  lemma {:induction false} RunKeepsInv(s: State, steps: seq<Step>, t: State)
    requires Inv(s) && IsRun(s, steps, t)
    ensures Inv(t)
    decreases steps
  {
    if steps != [] {
      StepKeepsInv(s, steps[0]);
      RunKeepsInv(Next(s, steps[0]), steps[1..], t);
    }
  }

  // ---------------------------------------------------------------- safety

  /** At most one request runs per key at a time. */
  lemma AtMostOneRequestPerKey(s: State, t: nat, u: nat)
    requires Inv(s) && t < |s.threads| && u < |s.threads|
    requires s.threads[t].Requesting? && s.threads[u].Requesting? && s.threads[t].key == s.threads[u].key
    ensures t == u
  {
    assert ThreadOk(s, t) && ThreadOk(s, u);
    assert FlightOk(s, s.threads[t].fid) && FlightOk(s, s.threads[u].fid);
  }

  /** A leader removes the flight it inserted and nothing else. */
  lemma LeaderRemovesItsOwnFlight(s: State, t: nat)
    requires Inv(s) && Enabled(s, Remove(t))
    ensures var pc := s.threads[t];
            && pc.key in s.flights && s.flights[pc.key] == pc.fid && s.heap[pc.fid].leader == t
            && Next(s, Remove(t)).flights == s.flights - {pc.key}
            && forall k | k in s.flights && s.flights[k] == pc.fid :: k == pc.key
  {
    assert ThreadOk(s, t);
    assert FlightOk(s, s.threads[t].fid);
    assert forall k | k in s.flights :: EntryOk(s, k);
  }

  /** Once a thread has joined or opened a flight it stays with it, and a finished thread keeps its result. */
  lemma StepKeepsFlightOf(s: State, step: Step, t: nat)
    requires Enabled(s, step) && t < |s.threads| && !s.threads[t].Start?
    ensures var n := Next(s, step);
            && t < |n.threads| && !n.threads[t].Start?
            && n.threads[t].fid == s.threads[t].fid && n.threads[t].Leads() == s.threads[t].Leads()
            && (s.threads[t].Finished() ==> n.threads[t] == s.threads[t])
  {
  }

  lemma {:induction false} RunKeepsFlightOf(s: State, steps: seq<Step>, n: State, t: nat)
    requires IsRun(s, steps, n) && t < |s.threads| && !s.threads[t].Start?
    ensures && t < |n.threads| && !n.threads[t].Start?
            && n.threads[t].fid == s.threads[t].fid && n.threads[t].Leads() == s.threads[t].Leads()
            && (s.threads[t].Finished() ==> n.threads[t] == s.threads[t])
    decreases steps
  {
    if steps != [] {
      StepKeepsFlightOf(s, steps[0], t);
      RunKeepsFlightOf(Next(s, steps[0]), steps[1..], n, t);
    }
  }

  /** A thread that has the result of its own request. */
  predicate Answered(s: State, u: nat) {
    u < |s.threads| &&
    var pc := s.threads[u];
    pc.HasResult? || pc.Locked? || pc.Filled? || pc.Notified? || pc.Published? || (pc.Done? && pc.led)
  }

  predicate AnswersTo(step: Step, u: nat) {
    step.RequestReturns? && step.t == u
  }

  /** The answer to `u`'s request arrives once, with this outcome. */
  ghost predicate AnsweredOnce(steps: seq<Step>, u: nat, outcome: Outcome) {
    exists i | 0 <= i < |steps| ::
      steps[i] == RequestReturns(u, outcome) && forall j | 0 <= j < |steps| && AnswersTo(steps[j], u) :: j == i
  }

  lemma AnswerStep(s: State, step: Step, u: nat)
    requires Enabled(s, step)
    ensures var n := Next(s, step);
            && (Answered(s, u) ==> !AnswersTo(step, u) && Answered(n, u) && n.threads[u].outcome == s.threads[u].outcome)
            && (!Answered(s, u) ==> (Answered(n, u) <==> AnswersTo(step, u)))
            && (AnswersTo(step, u) ==> Answered(n, u) && n.threads[u].outcome == step.outcome)
  {
  }

  lemma {:induction false} AnswerStays(s: State, steps: seq<Step>, n: State, u: nat)
    requires IsRun(s, steps, n) && Answered(s, u)
    ensures Answered(n, u) && n.threads[u].outcome == s.threads[u].outcome
    ensures forall j | 0 <= j < |steps| :: !AnswersTo(steps[j], u)
    decreases steps
  {
    hide Enabled, Next, Answered;
    if steps != [] {
      AnswerStep(s, steps[0], u);
      AnswerStays(Next(s, steps[0]), steps[1..], n, u);
      assert forall j | 0 < j < |steps| :: steps[j] == steps[1..][j - 1];
    }
  }

  /** Whoever has a result of its own made one request in the run, and that is what it returned. */
  lemma {:induction false} AnswerComesFromOneRequest(s: State, steps: seq<Step>, n: State, u: nat)
    requires IsRun(s, steps, n) && !Answered(s, u) && Answered(n, u)
    ensures AnsweredOnce(steps, u, n.threads[u].outcome)
    decreases steps
  {
    var outcome := n.threads[u].outcome;
    hide Enabled, Next, Answered;
    var next, rest := Next(s, steps[0]), steps[1..];
    AnswerStep(s, steps[0], u);
    assert forall j | 0 < j < |steps| :: steps[j] == rest[j - 1];
    if Answered(next, u) {
      AnswerStays(next, rest, n, u);
      assert steps[0] == RequestReturns(u, outcome);
    } else {
      AnswerComesFromOneRequest(next, rest, n, u);
      var i :| 0 <= i < |rest| && rest[i] == RequestReturns(u, outcome)
               && forall j | 0 <= j < |rest| && AnswersTo(rest[j], u) :: j == i;
      assert steps[i + 1] == RequestReturns(u, outcome);
      forall j | 0 <= j < |steps| && AnswersTo(steps[j], u) ensures j == i + 1 {
        assert AnswersTo(rest[j - 1], u);
      }
    }
  }

  lemma {:induction false} RunsJoin(s: State, before: seq<Step>, m: State, steps: seq<Step>, n: State)
    requires IsRun(s, before, m) && IsRun(m, steps, n)
    ensures IsRun(s, before + steps, n)
    decreases before
  {
    if before == [] {
      assert before + steps == steps;
    } else {
      RunsJoin(Next(s, before[0]), before[1..], m, steps, n);
      assert (before + steps)[1..] == before[1..] + steps;
    }
  }

  /** The requests that callers came with, in the order of their calls. */
  function Requests(steps: seq<Step>): seq<CheckRequest> {
    if steps == [] then [] else (if steps[0].Call? then [steps[0].key] else []) + Requests(steps[1..])
  }

  function Keys(s: State): (keys: seq<CheckRequest>)
    ensures |keys| == |s.threads| && forall t | 0 <= t < |keys| :: keys[t] == s.threads[t].key
  {
    seq(|s.threads|, t requires 0 <= t < |s.threads| => s.threads[t].key)
  }

  lemma StepKeepsKeys(s: State, step: Step)
    requires Enabled(s, step)
    ensures Keys(Next(s, step)) == Keys(s) + (if step.Call? then [step.key] else [])
  {
  }

  /** Every caller keeps the request it came with. */
  lemma {:induction false} CallersKeepTheirRequests(s: State, steps: seq<Step>, n: State)
    requires IsRun(s, steps, n)
    ensures Keys(n) == Keys(s) + Requests(steps)
    decreases steps
  {
    hide Enabled, Next, Keys;
    if steps != [] {
      var own := if steps[0].Call? then [steps[0].key] else [];
      StepKeepsKeys(s, steps[0]);
      CallersKeepTheirRequests(Next(s, steps[0]), steps[1..], n);
      assert Keys(s) + own + Requests(steps[1..]) == Keys(s) + (own + Requests(steps[1..]));
    } else {
      assert Keys(s) + [] == Keys(s);
    }
  }

  lemma NobodyAtFirst()
    ensures Keys(INIT) == [] && forall u :: !Answered(INIT, u)
  {
  }

  /** Who a caller that returned has its outcome from. */
  lemma OutcomeFromLeader(n: State, t: nat) returns (leader: nat)
    requires Inv(n) && t < |n.threads| && n.threads[t].Done?
    ensures leader < |n.threads| && n.threads[leader].key == n.threads[t].key && (n.threads[t].led ==> leader == t)
    ensures Answered(n, leader) && n.threads[leader].outcome == n.threads[t].outcome
  {
    assert ThreadOk(n, t) && FlightOk(n, n.threads[t].fid);
    leader := n.heap[n.threads[t].fid].leader;
  }

  /**
    What every caller gets, in any run from the start: the outcome of one request, made by the leader of its flight,
    which called with the same request as the caller itself.
   */
  lemma EveryCallerGetsItsOwnAnswer(steps: seq<Step>, n: State, t: nat)
    requires IsRun(INIT, steps, n) && t < |n.threads| && n.threads[t].Done?
    ensures var requests := Requests(steps);
            && t < |requests| == |n.threads|
            && exists leader: nat | leader < |requests| ::
                 && requests[leader] == requests[t] && (n.threads[t].led ==> leader == t)
                 && AnsweredOnce(steps, leader, n.threads[t].outcome)
  {
    hide *;
    InitInv();
    NobodyAtFirst();
    RunKeepsInv(INIT, steps, n);
    CallersKeepTheirRequests(INIT, steps, n);
    var requests := Requests(steps);
    assert [] + requests == requests;
    var leader := OutcomeFromLeader(n, t);
    AnswerComesFromOneRequest(INIT, steps, n, leader);
    assert requests[leader] == n.threads[leader].key && requests[t] == n.threads[t].key;
  }

  /**
    A follower that joins a flight and later returns, in any run from the start, returns exactly what the one request
    of that flight's leader returned, which was made for the same key.
   */
  lemma FollowerReturnsTheLeadersResult(before: seq<Step>, s: State, steps: seq<Step>, n: State, t: nat)
    requires IsRun(INIT, before, s) && IsRun(s, steps, n) && t < |s.threads| && s.threads[t].Joined?
    requires t < |n.threads| && n.threads[t].Done?
    ensures var f := s.threads[t].fid;
            && n.threads[t].fid == f && f < |s.heap| && f < |n.heap|
            && var leader := n.heap[f].leader;
            && leader < |n.threads| && n.threads[leader].Leads() && n.threads[leader].fid == f
            && n.threads[leader].HasFilled() && n.threads[leader].outcome == n.threads[t].outcome
            && n.threads[leader].key == s.threads[t].key
            && AnsweredOnce(before + steps, leader, n.threads[t].outcome)
            && t < |Requests(before + steps)| == |n.threads|
            && Requests(before + steps)[t] == Requests(before + steps)[leader] == n.threads[leader].key
  {
    hide IsRun, AnsweredOnce, Requests, Next, Enabled, Keys;
    InitInv();
    NobodyAtFirst();
    RunKeepsInv(INIT, before, s);
    RunKeepsInv(s, steps, n);
    RunKeepsFlightOf(s, steps, n, t);
    assert ThreadOk(s, t) && ThreadOk(n, t);
    assert FlightOk(n, n.threads[t].fid) && FlightOk(s, s.threads[t].fid);
    FlightKeyStays(s, steps, n, s.threads[t].fid);
    RunsJoin(INIT, before, s, steps, n);
    AnswerComesFromOneRequest(INIT, before + steps, n, n.heap[s.threads[t].fid].leader);
    CallersKeepTheirRequests(INIT, before + steps, n);
    assert [] + Requests(before + steps) == Requests(before + steps);
    assert Keys(n)[t] == n.threads[t].key;
  }

  lemma {:induction false} FlightKeyStays(s: State, steps: seq<Step>, n: State, f: nat)
    requires IsRun(s, steps, n) && f < |s.heap|
    ensures f < |n.heap| && n.heap[f].key == s.heap[f].key && n.heap[f].leader == s.heap[f].leader
    decreases steps
  {
    if steps != [] {
      FlightKeyStays(Next(s, steps[0]), steps[1..], n, f);
    }
  }
}
