/**
  Crash-loop protection: what a run of launches hands out when nothing reports back,
  and which patch a launch may blame for the crashes.
 */
module CrashFallback {
  import opened Basics
  import opened UpdaterState
  import opened StateInvariant

  // ---------------------------------------------------------------- bounded fallback

  /** The patches that can still be launched, in order of preference. */
  function Choices(s: State): seq<u32> {
    (if s.pending.Some? && Selectable(s, s.pending.value) then [s.pending.value] else [])
    + (if s.lastKnownGood.Some? && s.lastKnownGood != s.pending && Selectable(s, s.lastKnownGood.value)
       then [s.lastKnownGood.value] else [])
  }

  const LAUNCHES_PER_PATCH: nat := MAX_BOOT_ATTEMPTS - 1

  function Repeat(n: u32, times: nat): (r: seq<u32>)
    ensures |r| == times && forall i | 0 <= i < times :: r[i] == n
  {
    if times == 0 then [] else [n] + Repeat(n, times - 1)
  }

  function ScheduleFrom(choices: seq<u32>, attempts: nat): seq<u32>
    requires attempts <= LAUNCHES_PER_PATCH
  {
    if choices == [] then []
    else Repeat(choices[0], LAUNCHES_PER_PATCH - attempts) + ScheduleFrom(choices[1..], 0)
  }

  /** What consecutive launches hand out before they give up: each choice twice, less the attempts already made. */
  function Schedule(s: State): seq<u32>
    requires s.bootAttempts < MAX_BOOT_ATTEMPTS
  {
    ScheduleFrom(Choices(s), s.bootAttempts)
  }

  function LaunchTimes(s: State, k: nat): State
    decreases k
  {
    if k == 0 then s else LaunchTimes(LaunchState(s), k - 1)
  }

  /** The patch handed out by the launch after `i` earlier ones. */
  function Outcome(s: State, i: nat): Option<u32> {
    Returned(LaunchTimes(s, i), Launch)
  }

  function CrashReports(s: State, k: nat): seq<RollbackEvent>
    decreases k
  {
    if k == 0 then [] else LaunchEvents(s) + CrashReports(LaunchState(s), k - 1)
  }

  lemma SelectsFirstChoice(s: State)
    requires s.current == (if s.lastKnownGood.Some? then s.lastKnownGood.value else 0)
    ensures SelectLaunchPatchNumber(s) == (if Choices(s) == [] then None else Some(Choices(s)[0]))
  {
    SelectionPrefers(s);
  }

  /** Settling the previous launch drops the first choice exactly when it is condemned. */
  lemma SettledChoices(s: State)
    requires Inv(s)
    ensures var t := SettleLastLaunch(s);
            && t.current == (if t.lastKnownGood.Some? then t.lastKnownGood.value else 0)
            && (Condemns(s) <==> s.bootAttempts == LAUNCHES_PER_PATCH)
            && (s.bootAttempts > 0 ==> Choices(s) != [] && s.lastLaunch.value.patchNumber == Choices(s)[0])
            && Choices(t) == (if Condemns(s) then Choices(s)[1..] else Choices(s))
            && t.bad == (if Condemns(s) then s.bad + [Choices(s)[0]] else s.bad)
            && t.bootAttempts == (if Condemns(s) then 0 else s.bootAttempts)
  {
    SelectsFirstChoice(s);
  }

  /** One launch hands out the first choice that is left, and counts the attempt. */
  lemma LaunchTakesFirstChoice(s: State)
    requires Inv(s)
    ensures var left, u := Choices(SettleLastLaunch(s)), LaunchState(s);
            && Returned(s, Launch) == (if left == [] then None else Some(left[0]))
            && Choices(u) == left
            && (left == [] ==> u == SettleLastLaunch(s) && u.bootAttempts == 0)
            && (left != [] ==> u.lastLaunch == Some(LastLaunch(left[0], PendingSuccess))
                               && u.bootAttempts == (if Condemns(s) then 1 else s.bootAttempts + 1))
  {
    SettledChoices(s);
    SelectsFirstChoice(SettleLastLaunch(s));
  }

  lemma ScheduleStep(choices: seq<u32>, attempts: nat)
    requires choices != [] && attempts <= LAUNCHES_PER_PATCH
    ensures attempts < LAUNCHES_PER_PATCH ==>
              ScheduleFrom(choices, attempts) == [choices[0]] + ScheduleFrom(choices, attempts + 1)
    ensures attempts == LAUNCHES_PER_PATCH ==> ScheduleFrom(choices, attempts) == ScheduleFrom(choices[1..], 0)
  {
  }

  lemma LaunchFollowsSchedule(s: State)
    requires Inv(s)
    ensures Inv(LaunchState(s))
    ensures Returned(s, Launch) == (if Schedule(s) == [] then None else Some(Schedule(s)[0]))
    ensures Schedule(LaunchState(s)) == (if Schedule(s) == [] then [] else Schedule(s)[1..])
  {
    LaunchKeepsInv(s);
    SettledChoices(s);
    LaunchTakesFirstChoice(s);
    var left := Choices(SettleLastLaunch(s));
    if Choices(s) != [] {
      ScheduleStep(Choices(s), s.bootAttempts);
    }
    if left != [] {
      ScheduleStep(left, 0);
    }
  }

  /** The schedule has at most four entries and no patch three times in a row. */
  lemma ScheduleIsShort(s: State)
    requires Inv(s)
    ensures |Schedule(s)| <= 4
    ensures forall i | 0 <= i < |Schedule(s)| - 2 :: Schedule(s)[i] != Schedule(s)[i + 2]
  {
    var cs := Choices(s);
    if cs != [] {
      var rest := ScheduleFrom(cs[1..], 0);
      assert Schedule(s) == Repeat(cs[0], LAUNCHES_PER_PATCH - s.bootAttempts) + rest;
      if |cs| == 1 {
        assert rest == [];
      } else {
        assert cs[1..][1..] == [];
        assert rest == Repeat(cs[1], LAUNCHES_PER_PATCH) + ScheduleFrom([], 0);
      }
    }
  }

  lemma EmptySchedule(s: State)
    requires Inv(s) && Schedule(s) == []
    ensures Choices(s) == [] || (|Choices(s)| == 1 && Condemns(s))
  {
    SettledChoices(s);
    if |Choices(s)| > 1 { ScheduleCoversChoices(Choices(s), s.bootAttempts); }
  }

  lemma ScheduleCoversChoices(choices: seq<u32>, attempts: nat)
    requires attempts <= LAUNCHES_PER_PATCH && |choices| > 1
    ensures ScheduleFrom(choices, attempts) != []
  {
    assert ScheduleFrom(choices[1..], 0) == Repeat(choices[1], LAUNCHES_PER_PATCH) + ScheduleFrom(choices[1..][1..], 0);
  }

  /**
    Bounded crash fallback, exactly: from any state a run can reach, consecutive launches hand out
    the schedule and then the baseline forever.
   */
  lemma {:induction false} LaunchesFollowSchedule(s: State, i: nat)
    requires Inv(s)
    ensures Outcome(s, i) == (if i < |Schedule(s)| then Some(Schedule(s)[i]) else None)
    decreases i
  {
    hide LaunchState, Schedule, LaunchedPatch, Inv;
    LaunchFollowsSchedule(s);
    if i > 0 {
      LaunchesFollowSchedule(LaunchState(s), i - 1);
    }
  }

  /** Crash reports that condemn `choices` in order, each after three attempts. */
  ghost predicate Condemn(reports: seq<RollbackEvent>, choices: seq<u32>) {
    |reports| == |choices| && forall i | 0 <= i < |choices| ::
                                reports[i].CrashRollback? && reports[i].patchNumber == choices[i]
                                && reports[i].bootAttempts == MAX_BOOT_ATTEMPTS
  }

  /** What one launch adds to the bad list and to the crash reports. */
  lemma LaunchCondemns(s: State)
    requires Inv(s)
    ensures var t, cs := LaunchState(s), Choices(s);
            if Condemns(s) then
              cs != [] && t.bad == s.bad + [cs[0]] && Choices(t) == cs[1..] && Condemn(LaunchEvents(s), [cs[0]])
            else
              t.bad == s.bad && Choices(t) == cs && LaunchEvents(s) == []
  {
    SettledChoices(s);
    LaunchTakesFirstChoice(s);
  }

  lemma CondemnInOrder(first: seq<RollbackEvent>, rest: seq<RollbackEvent>, cs: seq<u32>, ds: seq<u32>)
    requires Condemn(first, cs) && Condemn(rest, ds)
    ensures Condemn(first + rest, cs + ds)
  {
  }

  /** One step of the induction, from what `LaunchCondemns` says of the launch from `s` to `t`. */
  lemma CondemnedSoFar(s: State, t: State, k: nat, head: seq<u32>)
    requires t == LaunchState(s)
    requires Choices(s) == head + Choices(t) && t.bad == s.bad + head && Condemn(LaunchEvents(s), head)
    requires LaunchTimes(t, k).bad == t.bad + Choices(t) && Condemn(CrashReports(t, k), Choices(t))
    ensures LaunchTimes(s, k + 1).bad == s.bad + Choices(s)
    ensures Condemn(CrashReports(s, k + 1), Choices(s))
  {
    CondemnInOrder(LaunchEvents(s), CrashReports(t, k), head, Choices(t));
  }

  lemma LastLaunchCondemnsTheRest(s: State)
    requires Inv(s) && Schedule(s) == []
    ensures LaunchTimes(s, 1).bad == s.bad + Choices(s)
    ensures Condemn(CrashReports(s, 1), Choices(s))
  {
    EmptySchedule(s);
    LaunchCondemns(s);
    assert Choices(LaunchState(s)) == [];
    CondemnedSoFar(s, LaunchState(s), 0, Choices(s));
  }

  /** When the baseline is reached every choice has been condemned, in order. */
  lemma {:induction false} ExhaustionCondemnsEveryChoice(s: State, k: nat)
    requires Inv(s) && k == |Schedule(s)|
    ensures LaunchTimes(s, k + 1).bad == s.bad + Choices(s)
    ensures Condemn(CrashReports(s, k + 1), Choices(s))
    decreases k
  {
    hide *;
    if k == 0 {
      LastLaunchCondemnsTheRest(s);
    } else {
      LaunchFollowsSchedule(s);
      LaunchCondemns(s);
      ExhaustionCondemnsEveryChoice(LaunchState(s), k - 1);
      CondemnedSoFar(s, LaunchState(s), k, if Condemns(s) then [Choices(s)[0]] else []);
    }
  }

  // ---------------------------------------------------------------- right blame

  /** What launches returned since the last install, report or reset, oldest first. */
  function Streak(s: State, ops: seq<Op>): seq<Option<u32>> {
    if ops == [] then []
    else
      var front, last := ops[..|ops| - 1], ops[|ops| - 1];
      match last
      case Launch => Streak(s, front) + [Returned(Run(s, front), Launch)]
      case Ready => Streak(s, front)
      case _ => []
  }

  /** The streak ends with `n` handed out twice in a row. */
  predicate EndsTwice(streak: seq<Option<u32>>, n: u32) {
    |streak| >= 2 && streak[|streak| - 1] == Some(n) && streak[|streak| - 2] == Some(n)
  }

  /** How the persisted attempt counter reads off the streak. */
  ghost predicate CountsStreak(s: State, streak: seq<Option<u32>>) {
    if streak == [] || streak[|streak| - 1].None? then s.bootAttempts == 0
    else
      var n := streak[|streak| - 1].value;
      && AwaitsSuccess(s) && s.lastLaunch.value.patchNumber == n
      && s.bootAttempts == (if EndsTwice(streak, n) then 2 else 1)
  }

  lemma ApplyKeepsCount(s: State, streak: seq<Option<u32>>, op: Op)
    requires Inv(s) && CountsStreak(s, streak)
    ensures CountsStreak(Apply(s, op),
                         if op.Launch? then streak + [Returned(s, Launch)] else if op.Ready? then streak else [])
  {
    if op.Launch? {
      LaunchKeepsCount(s, streak);
    }
  }

  /** The counter after a launch that hands out the head of `left`, having condemned `cs[0]` or not. */
  lemma CountStep(s: State, u: State, streak: seq<Option<u32>>, out: Option<u32>, cs: seq<u32>, left: seq<u32>)
    requires CountsStreak(s, streak)
    requires s.bootAttempts == LAUNCHES_PER_PATCH ==> cs != [] && left == cs[1..] && cs[0] !in left
    requires s.bootAttempts != LAUNCHES_PER_PATCH ==> left == cs
    requires s.bootAttempts > 0 ==> cs != [] && s.lastLaunch.Some? && s.lastLaunch.value.patchNumber == cs[0]
    requires out == (if left == [] then None else Some(left[0]))
    requires left == [] ==> u.bootAttempts == 0
    requires left != [] ==> u.lastLaunch == Some(LastLaunch(left[0], PendingSuccess))
    requires left != [] ==> u.bootAttempts == (if s.bootAttempts == LAUNCHES_PER_PATCH then 1 else s.bootAttempts + 1)
    ensures CountsStreak(u, streak + [out])
  {
    var longer := streak + [out];
    assert longer[|longer| - 1] == out;
    if streak != [] {
      assert longer[|longer| - 2] == streak[|streak| - 1];
    }
  }

  lemma LaunchKeepsCount(s: State, streak: seq<Option<u32>>)
    requires Inv(s) && CountsStreak(s, streak)
    ensures CountsStreak(LaunchState(s), streak + [Returned(s, Launch)])
  {
    SettledChoices(s);
    LaunchTakesFirstChoice(s);
    CountStep(s, LaunchState(s), streak, Returned(s, Launch), Choices(s), Choices(SettleLastLaunch(s)));
  }

  lemma {:induction false} RunCountsStreak(s: State, ops: seq<Op>)
    requires Inv(s) && s.bootAttempts == 0
    ensures CountsStreak(Run(s, ops), Streak(s, ops))
  {
    if ops != [] {
      RunCountsStreak(s, ops[..|ops| - 1]);
      RunKeepsInv(s, ops[..|ops| - 1]);
      ApplyKeepsCount(Run(s, ops[..|ops| - 1]), Streak(s, ops[..|ops| - 1]), ops[|ops| - 1]);
    }
  }

  /**
    Right blame: after any run, a launch condemns patch `n` if and only if the last two launches both
    handed out `n` with no install, report or reset since the first of them.
   */
  lemma BlamesExactlyTheRepeatedPatch(s: State, ops: seq<Op>, n: u32)
    requires Inv(s) && s.bootAttempts == 0
    ensures var t := Run(s, ops);
            n !in t.bad && n in LaunchState(t).bad <==> EndsTwice(Streak(s, ops), n)
    ensures var t := Run(s, ops);
            LaunchEvents(t) != [] <==> exists m :: EndsTwice(Streak(s, ops), m)
  {
    hide Run, Streak, LaunchState, SettleLastLaunch, LaunchEvents, SelectLaunchPatchNumber;
    var t := Run(s, ops);
    RunKeepsInv(s, ops);
    RunCountsStreak(s, ops);
    SettledChoices(t);
    LaunchCondemns(t);
    var streak := Streak(s, ops);
    if Condemns(t) {
      assert EndsTwice(streak, t.lastLaunch.value.patchNumber);
    }
  }
}
