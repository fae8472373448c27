/**
  Is the patch that is current always installed? Not always: when, exactly, and which install is to blame.
 */
module CurrentPatch {
  import opened Basics
  import opened UpdaterState
  import opened StateInvariant

  // ---------------------------------------------------------------- over whole runs

  ghost predicate CurrentInstalled(s: State) {
    s.current > 0 ==> IsInstalled(s.installed, s.current)
  }

  /** The patch of the last launch still has its files. */
  ghost predicate LaunchedInstalled(s: State) {
    s.lastLaunch.Some? && s.lastLaunch.value.patchNumber > 0 ==> IsInstalled(s.installed, s.lastLaunch.value.patchNumber)
  }

  /** Only an accepted success report can make a patch current whose files are gone. */
  lemma ApplyKeepsCurrentInstalledIff(s: State, op: Op)
    requires Inv(s) && CurrentInstalled(s)
    ensures CurrentInstalled(Apply(s, op)) <==> (op.MarkSuccess? && MarkSuccessError(s).None? ==> LaunchedInstalled(s))
  {
    if op.Install? {
      InstallRetains(s, op.release, op.patch);
      if s.current > 0 {
        var p :| p in s.installed && p.patchNumber == s.current;
        assert Kept(s, p.patchNumber);
      }
    }
  }

  ghost predicate AlwaysCurrentInstalled(s: State, ops: seq<Op>) {
    forall k: nat | k <= |ops| :: CurrentInstalled(Run(s, ops[..k]))
  }

  ghost predicate ReportsInstalled(s: State, ops: seq<Op>) {
    forall i | 0 <= i < |ops| && ops[i].MarkSuccess? && MarkSuccessError(Run(s, ops[..i])).None? ::
      LaunchedInstalled(Run(s, ops[..i]))
  }

  /** Over a whole run: the current patch is installed throughout if and only if each accepted report finds its patch installed. */
  lemma CurrentInstalledIffReportsInstalled(s: State, ops: seq<Op>)
    requires Inv(s) && CurrentInstalled(s)
    ensures AlwaysCurrentInstalled(s, ops) <==> ReportsInstalled(s, ops)
  {
    hide Inv, CurrentInstalled, Apply, MarkSuccessError, LaunchedInstalled;
    if AlwaysCurrentInstalled(s, ops) {
      forall i | 0 <= i < |ops| && ops[i].MarkSuccess? && MarkSuccessError(Run(s, ops[..i])).None?
        ensures LaunchedInstalled(Run(s, ops[..i]))
      {
        RunKeepsInv(s, ops[..i]);
        RunStep(s, ops, i);
        ApplyKeepsCurrentInstalledIff(Run(s, ops[..i]), ops[i]);
        assert CurrentInstalled(Run(s, ops[..i + 1]));
      }
    }
    if ReportsInstalled(s, ops) {
      forall k: nat | k <= |ops| ensures CurrentInstalled(Run(s, ops[..k])) { ReportsKeepCurrentInstalled(s, ops, k); }
    }
  }

  lemma {:induction false} ReportsKeepCurrentInstalled(s: State, ops: seq<Op>, k: nat)
    requires Inv(s) && CurrentInstalled(s) && ReportsInstalled(s, ops) && k <= |ops|
    ensures CurrentInstalled(Run(s, ops[..k]))
    decreases k
  {
    hide Inv, CurrentInstalled, Apply, MarkSuccessError, LaunchedInstalled;
    if k > 0 {
      ReportsKeepCurrentInstalled(s, ops, k - 1);
      RunKeepsInv(s, ops[..k - 1]);
      RunStep(s, ops, k - 1);
      ApplyKeepsCurrentInstalledIff(Run(s, ops[..k - 1]), ops[k - 1]);
    }
  }

  // ---------------------------------------------------------------- which install is to blame

  /** The patch that runs and has not reported. */
  predicate Runs(s: State, n: u32) {
    AwaitsSuccess(s) && s.lastLaunch.value.patchNumber == n
  }

  /** A test before an install: will it delete the files of `n`, which runs but is not yet known to be good? */
  predicate Evicts(s: State, patch: InstalledPatch, n: u32) {
    && n > 0 && n != patch.patchNumber && Runs(s, n) && !Kept(s, n) && IsInstalled(s.installed, n)
    && exists q | q in s.installed ::
         q.patchNumber != n && q.patchNumber != patch.patchNumber && (Kept(s, q.patchNumber) || n < q.patchNumber)
  }

  /** It deletes them exactly then. */
  lemma EvictsIff(s: State, release: string, patch: InstalledPatch, n: u32)
    requires Inv(s) && Runs(s, n) && n > 0
    ensures IsInstalled(InstallState(s, release, patch).installed, n) <==>
            n == patch.patchNumber || (IsInstalled(s.installed, n) && !Evicts(s, patch, n))
  {
    hide InstallState, AwaitsSuccess, SelectLaunchPatchNumber;
    InvOrders(s);
    InstallRetains(s, release, patch);
    if n != patch.patchNumber && IsInstalled(s.installed, n) {
      var p :| p in s.installed && p.patchNumber == n;
      InstallDropsIff(s, release, patch, p);
      if q :| q in s.installed && Outlasts(s, patch, p, q) { OnlyEntry(s, p, q); }
      if IsInstalled(InstallState(s, release, patch).installed, n) {
        var r :| r in InstallState(s, release, patch).installed && r.patchNumber == n;
        OnlyEntry(s, p, r);
      }
    }
  }

  lemma OnlyEntry(s: State, p: InstalledPatch, q: InstalledPatch)
    requires Distinct(s.installed) && p in s.installed && q in s.installed
    ensures p.patchNumber == q.patchNumber ==> p == q
  {
    var i, j :| 0 <= i < |s.installed| && 0 <= j < |s.installed| && s.installed[i] == p && s.installed[j] == q;
  }

  /** The last launch was reported good and has stayed so, or is bad by now. */
  ghost predicate SuccessRecorded(s: State) {
    s.lastLaunch.Some? && s.lastLaunch.value.status.Succeeded? ==>
      s.lastLaunch.value.patchNumber in s.bad || s.lastKnownGood == Some(s.lastLaunch.value.patchNumber)
  }

  ghost predicate RunningInstalled(s: State) {
    AwaitsSuccess(s) ==> LaunchedInstalled(s)
  }

  /** Between a launch and its report: installs of other patches, and calls to ready. */
  predicate Leaves(op: Op, n: u32) {
    op.Ready? || (op.Install? && op.patch.patchNumber != n)
  }

  /** Install `k` evicted the patch that was running, which has neither reported nor been installed again before call `i`. */
  ghost predicate EvictedSince(s: State, ops: seq<Op>, k: nat, i: nat) {
    && k < i <= |ops| && ops[k].Install?
    && var t := Run(s, ops[..k]);
    && t.lastLaunch.Some?
    && var n := t.lastLaunch.value.patchNumber;
    && Evicts(t, ops[k].patch, n) && forall m | k < m < i :: Leaves(ops[m], n)
  }

  ghost predicate EvictedBeforeReport(s: State, ops: seq<Op>, k: nat, i: nat) {
    i < |ops| && ops[i].MarkSuccess? && EvictedSince(s, ops, k, i)
  }

  /** What one call does to the files of the running patch. */
  lemma RunningStep(s: State, op: Op)
    requires Inv(s) && SuccessRecorded(s)
    ensures SuccessRecorded(Apply(s, op))
    ensures !op.Install? && !op.Ready? ==> RunningInstalled(Apply(s, op))
    ensures op.Install? || op.Ready? ==> Apply(s, op).lastLaunch == s.lastLaunch
  {
  }

  lemma InstallStep(s: State, op: Op, n: u32)
    requires Inv(s) && op.Install? && Runs(s, n) && n > 0
    ensures IsInstalled(Apply(s, op).installed, n) <==>
            n == op.patch.patchNumber || (IsInstalled(s.installed, n) && !Evicts(s, op.patch, n))
  {
    hide InstallState, Inv;
    EvictsIff(s, op.release, op.patch, n);
  }

  lemma {:induction false} RunKeepsRecorded(s: State, ops: seq<Op>)
    requires Inv(s) && SuccessRecorded(s)
    ensures Inv(Run(s, ops)) && SuccessRecorded(Run(s, ops))
  {
    hide Inv, SuccessRecorded, Apply;
    RunKeepsInv(s, ops);
    if ops != [] {
      RunKeepsRecorded(s, ops[..|ops| - 1]);
      RunningStep(Run(s, ops[..|ops| - 1]), ops[|ops| - 1]);
    }
  }

  /** A running patch whose files are gone has been evicted by an install. */
  lemma {:induction false} MissingWasEvicted(s: State, ops: seq<Op>, i: nat) returns (k: nat)
    requires Inv(s) && SuccessRecorded(s) && RunningInstalled(s)
    requires i <= |ops| && !RunningInstalled(Run(s, ops[..i]))
    ensures EvictedSince(s, ops, k, i)
    ensures Run(s, ops[..k]).lastLaunch == Run(s, ops[..i]).lastLaunch
    decreases i
  {
    hide Inv, SuccessRecorded, Apply, Evicts;
    assert i > 0 by { assert Run(s, ops[..0]) == s; }
    var op, t := ops[i - 1], Run(s, ops[..i - 1]);
    RunStep(s, ops, i - 1);
    RunKeepsRecorded(s, ops[..i - 1]);
    RunningStep(t, op);
    var n := t.lastLaunch.value.patchNumber;
    if op.Install? {
      InstallStep(t, op, n);
    }
    if op.Install? && Evicts(t, op.patch, n) {
      k := i - 1;
    } else {
      ReadyStep(t, op);
      k := MissingWasEvicted(s, ops, i - 1);
    }
  }

  lemma ReadyStep(s: State, op: Op)
    ensures op.Ready? ==> Apply(s, op) == s
  {
  }

  /** An evicted patch runs on without its files. */
  lemma {:induction false} EvictedStaysMissing(s: State, ops: seq<Op>, k: nat, i: nat)
    requires Inv(s) && SuccessRecorded(s) && EvictedSince(s, ops, k, i)
    ensures var n := Run(s, ops[..k]).lastLaunch.value.patchNumber;
            n > 0 && Runs(Run(s, ops[..i]), n) && !IsInstalled(Run(s, ops[..i]).installed, n)
    decreases i
  {
    hide Inv, SuccessRecorded, Apply;
    var op, t, n := ops[i - 1], Run(s, ops[..i - 1]), Run(s, ops[..k]).lastLaunch.value.patchNumber;
    RunStep(s, ops, i - 1);
    RunKeepsRecorded(s, ops[..i - 1]);
    if k < i - 1 {
      EvictedStaysMissing(s, ops, k, i - 1);
      assert Leaves(ops[i - 1], n);
      ReadyStep(t, op);
    }
    if op.Install? {
      InstallStep(t, op, n);
      RunningStep(t, op);
    }
  }

  /** The current patch first loses its files to an accepted report of a patch without any. */
  lemma {:induction false} FirstReportToBlame(s: State, ops: seq<Op>, k: nat) returns (i: nat)
    requires Inv(s) && CurrentInstalled(s) && k <= |ops| && !CurrentInstalled(Run(s, ops[..k]))
    ensures i < k && ops[i].MarkSuccess? && MarkSuccessError(Run(s, ops[..i])).None?
    ensures CurrentInstalled(Run(s, ops[..i])) && !LaunchedInstalled(Run(s, ops[..i]))
    decreases k
  {
    hide Inv, CurrentInstalled, Apply, MarkSuccessError, LaunchedInstalled;
    assert k > 0 by { assert Run(s, ops[..0]) == s; }
    RunKeepsInv(s, ops[..k - 1]);
    RunStep(s, ops, k - 1);
    if CurrentInstalled(Run(s, ops[..k - 1])) {
      ApplyKeepsCurrentInstalledIff(Run(s, ops[..k - 1]), ops[k - 1]);
      i := k - 1;
    } else {
      i := FirstReportToBlame(s, ops, k - 1);
    }
  }

  lemma AcceptedReportAwaits(s: State)
    requires Inv(s) && SuccessRecorded(s)
    ensures AwaitsSuccess(s) ==> MarkSuccessError(s).None?
    ensures MarkSuccessError(s).None? && CurrentInstalled(s) && !LaunchedInstalled(s) ==> AwaitsSuccess(s)
  {
  }

  /**
    The exact condition, in terms of a test before each install: the current patch is installed throughout a run if and
    only if no install evicts a running patch that goes on to report success without being installed again.
   */
  lemma CurrentInstalledIffNothingEvicted(s: State, ops: seq<Op>)
    requires Inv(s) && CurrentInstalled(s) && SuccessRecorded(s) && RunningInstalled(s)
    ensures AlwaysCurrentInstalled(s, ops) <==> !exists k: nat, i: nat :: EvictedBeforeReport(s, ops, k, i)
  {
    hide Inv, CurrentInstalled, SuccessRecorded, Apply, MarkSuccessError, EvictedSince;
    if !AlwaysCurrentInstalled(s, ops) {
      var end: nat :| end <= |ops| && !CurrentInstalled(Run(s, ops[..end]));
      var i := FirstReportToBlame(s, ops, end);
      RunKeepsRecorded(s, ops[..i]);
      AcceptedReportAwaits(Run(s, ops[..i]));
      var k := MissingWasEvicted(s, ops, i);
      assert EvictedBeforeReport(s, ops, k, i);
    }
    if k: nat, i: nat :| EvictedBeforeReport(s, ops, k, i) {
      EvictedReportBreaks(s, ops, k, i);
    }
  }

  lemma EvictedReportBreaks(s: State, ops: seq<Op>, k: nat, i: nat)
    requires Inv(s) && SuccessRecorded(s) && CurrentInstalled(s) && EvictedBeforeReport(s, ops, k, i)
    ensures !AlwaysCurrentInstalled(s, ops)
  {
    hide Inv, SuccessRecorded, MarkSuccessError, Evicts;
    EvictedStaysMissing(s, ops, k, i);
    RunKeepsRecorded(s, ops[..i]);
    AcceptedReportAwaits(Run(s, ops[..i]));
    CurrentInstalledIffReportsInstalled(s, ops);
  }

  // ---------------------------------------------------------------- it happens

  /** `a` is running and not yet reported, with nothing known good behind it. */
  ghost predicate RunsUnreported(s: State, a: InstalledPatch) {
    && Inv(s) && s.bad == [] && s.lastKnownGood.None?
    && s.lastLaunch == Some(LastLaunch(a.patchNumber, PendingSuccess))
    && a in s.installed
  }

  lemma FirstLaunch(s: State, release: string, a: InstalledPatch)
    requires Inv(s) && s.installed == [] && s.bad == [] && s.lastKnownGood.None?
    ensures RunsUnreported(LaunchState(InstallState(s, release, a)), a)
    ensures forall p | p in LaunchState(InstallState(s, release, a)).installed :: p == a
  {
    var t := InstallState(s, release, a);
    InstallRetains(s, release, a);
    InstallKeepsInv(s, release, a);
    assert Selectable(t, a.patchNumber);
    SelectionIgnoresLaunchRecord(t, t.bootAttempts, None);
    LaunchKeepsInv(t);
  }

  /** `a` still runs unreported, and `b` has been installed beside it. */
  ghost predicate RunsBeside(s: State, a: InstalledPatch, b: InstalledPatch) {
    RunsUnreported(s, a) && b in s.installed && forall p | p in s.installed :: p == a || p == b
  }

  lemma FirstInstallSparesRunning(s: State, release: string, a: InstalledPatch, b: InstalledPatch)
    requires RunsUnreported(s, a) && a.patchNumber != b.patchNumber
    requires forall p | p in s.installed :: p == a
    ensures RunsBeside(InstallState(s, release, b), a, b)
  {
    InstallKeepsInv(s, release, b);
    InstallRetains(s, release, b);
    InstallDropsIff(s, release, b, a);
  }

  lemma SecondInstallEvictsRunning(s: State, release: string, a: InstalledPatch, b: InstalledPatch, c: InstalledPatch)
    requires RunsBeside(s, a, b)
    requires 0 < a.patchNumber < b.patchNumber && c.patchNumber != a.patchNumber && c.patchNumber != b.patchNumber
    ensures var t := MarkSuccessState(InstallState(s, release, c));
            t.current == a.patchNumber && !CurrentInstalled(t)
  {
    hide InstallState;
    assert Evicts(s, c, a.patchNumber);
    EvictsIff(s, release, c, a.patchNumber);
    InstallKeepsLaunch(s, release, c);
  }

  lemma InstallKeepsLaunch(s: State, release: string, patch: InstalledPatch)
    ensures var t := InstallState(s, release, patch);
            t.lastLaunch == s.lastLaunch && t.current == s.current && t.lastKnownGood == s.lastKnownGood && t.bad == s.bad
  {
  }

  /**
    So a patch can be reported successful, and become current, after its files were pruned: patch `a` is
    installed into an empty cache and launched, `b` and `c` are installed while it runs, then it reports.
   */
  lemma CurrentNeedNotBeInstalled(s: State, release: string, a: InstalledPatch, b: InstalledPatch, c: InstalledPatch)
    requires Inv(s) && s.installed == [] && s.bad == [] && s.lastKnownGood.None?
    requires 0 < a.patchNumber < b.patchNumber && c.patchNumber != a.patchNumber && c.patchNumber != b.patchNumber
    ensures var launched := LaunchState(InstallState(s, release, a));
            var t := MarkSuccessState(InstallState(InstallState(launched, release, b), release, c));
            t.current == a.patchNumber && !CurrentInstalled(t)
  {
    FirstLaunch(s, release, a);
    var launched := LaunchState(InstallState(s, release, a));
    FirstInstallSparesRunning(launched, release, a, b);
    SecondInstallEvictsRunning(InstallState(launched, release, b), release, a, b, c);
  }

  /** Where a launch stands with respect to installs: none awaited, awaited, or awaited with an install since. */
  datatype Phase = Settled | Outstanding | Stale

  function NextPhase(phase: Phase, op: Op): Phase {
    match op
    case Launch => Outstanding
    case Install(_, _) => if phase.Settled? then Settled else Stale
    case Ready => phase
    case _ => Settled
  }

  function PhaseAfter(ops: seq<Op>): Phase {
    if ops == [] then Settled else NextPhase(PhaseAfter(ops[..|ops| - 1]), ops[|ops| - 1])
  }

  /** No install falls between a launch and its success report. */
  ghost predicate WellTimed(ops: seq<Op>) {
    forall i | 0 <= i < |ops| && ops[i].MarkSuccess? :: PhaseAfter(ops[..i]) != Stale
  }

  lemma {:induction false} AwaitingIsNotSettled(s: State, ops: seq<Op>)
    requires Inv(s) && !AwaitsSuccess(s)
    ensures AwaitsSuccess(Run(s, ops)) ==> PhaseAfter(ops) != Settled
  {
    if ops != [] {
      RunKeepsInv(s, ops[..|ops| - 1]);
      AwaitingIsNotSettled(s, ops[..|ops| - 1]);
    }
  }

  lemma {:induction false} EvictedIsStale(s: State, ops: seq<Op>, k: nat, i: nat)
    requires Inv(s) && !AwaitsSuccess(s) && EvictedSince(s, ops, k, i)
    ensures PhaseAfter(ops[..i]) == Stale
    decreases i
  {
    hide Run;
    assert ops[..i][..i - 1] == ops[..i - 1];
    if k < i - 1 {
      EvictedIsStale(s, ops, k, i - 1);
      assert Leaves(ops[i - 1], Run(s, ops[..k]).lastLaunch.value.patchNumber);
    } else {
      AwaitingIsNotSettled(s, ops[..k]);
    }
  }

  /** In a well-timed run the patch that is current is always installed. */
  lemma WellTimedRunsKeepCurrentInstalled(s: State, ops: seq<Op>)
    requires Inv(s) && CurrentInstalled(s) && SuccessRecorded(s) && !AwaitsSuccess(s) && WellTimed(ops)
    ensures AlwaysCurrentInstalled(s, ops)
  {
    hide Inv, CurrentInstalled, SuccessRecorded, EvictedSince, PhaseAfter, AwaitsSuccess;
    assert RunningInstalled(s);
    CurrentInstalledIffNothingEvicted(s, ops);
    if k: nat, i: nat :| EvictedBeforeReport(s, ops, k, i) {
      EvictedIsStale(s, ops, k, i);
    }
  }
}
