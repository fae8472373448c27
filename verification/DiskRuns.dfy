/** From files to runs: the updater's disk follows the state machine of `StateInvariant`. */
module DiskRuns {
  import opened Basics
  import opened UpdaterState
  import opened UpdaterDisk
  import EventLog
  import SI = StateInvariant

  datatype Call =
    | InstallCall(manifest: Manifest, payload: Bytes, key: string, baseline: Option<Bytes>)
    | LaunchCall
    | ReadyCall
    | SuccessCall
    | FailureCall(patchNumber: u32, reason: string)
    | CorruptFile

  function DiskAfter(libs: Libraries, d: Disk, call: Call): Disk {
    match call
    case InstallCall(m, payload, key, baseline) => DiskAfterInstall(libs, d, m, payload, key, baseline)
    case LaunchCall => DiskAfterLaunch(d)
    case ReadyCall => AfterLoad(d)
    case SuccessCall => DiskAfterSuccess(d)
    case FailureCall(n, reason) => DiskAfterFailure(d, n, reason)
    case CorruptFile => d.(stateFile := Corrupt)
  }

  /** What a call means to the state machine; a refused install is a call that changes nothing. */
  function AsOp(libs: Libraries, d: Disk, call: Call): SI.Op {
    match call
    case InstallCall(m, payload, key, baseline) =>
      if Derived(libs, d, m, payload, key, baseline).Ok? then SI.Install(m.releaseVersion, Entry(m)) else SI.Ready
    case LaunchCall => SI.Launch
    case ReadyCall => SI.Ready
    case SuccessCall => SI.MarkSuccess
    case FailureCall(n, reason) => SI.MarkFailure(n, reason)
    case CorruptFile => SI.Reset
  }

  lemma InstallRefines(libs: Libraries, d: Disk, m: Manifest, payload: Bytes, key: string, baseline: Option<Bytes>)
    requires Derived(libs, d, m, payload, key, baseline).Ok?
    ensures LoadedState(DiskAfterInstall(libs, d, m, payload, key, baseline).stateFile)
         == InstallState(LoadedState(d.stateFile), m.releaseVersion, Entry(m))
  {
    hide Prune, SortByPatch, Without, ChainedDiff;
    var t := AddPending(LoadedState(d.stateFile), m.releaseVersion, Entry(m));
    var artifact := Derived(libs, d, m, payload, key, baseline).value;
    SI.PruneIgnoresArtifacts(t, t.installed, WithArtifact(d.artifacts, m.patchNumber, artifact), map[]);
  }

  lemma LaunchRefines(d: Disk)
    ensures LoadedState(DiskAfterLaunch(d).stateFile) == LaunchState(LoadedState(d.stateFile))
    ensures DiskAfterLaunch(d).artifacts == d.artifacts
    ensures LaunchState(LoadedState(d.stateFile)) == LoadedState(d.stateFile) && LaunchedPatch(LoadedState(d.stateFile)).None? ==>
              DiskAfterLaunch(d) == AfterLoad(d)
  {
    hide FirstSelectable;
  }

  /** Every call moves the loaded state as the state machine does. */
  lemma CallRefines(libs: Libraries, d: Disk, call: Call)
    ensures LoadedState(DiskAfter(libs, d, call).stateFile) == SI.Apply(LoadedState(d.stateFile), AsOp(libs, d, call))
  {
    hide Prune, SortByPatch, Without, ChainedDiff, InstallState, LaunchState, DiskAfterLaunch, Derived;
    match call
    case InstallCall(m, payload, key, baseline) =>
      if Derived(libs, d, m, payload, key, baseline).Ok? { InstallRefines(libs, d, m, payload, key, baseline); }
    case LaunchCall => LaunchRefines(d);
    case _ =>
  }

  function DiskRun(libs: Libraries, d: Disk, calls: seq<Call>): Disk {
    if calls == [] then d else DiskAfter(libs, DiskRun(libs, d, calls[..|calls| - 1]), calls[|calls| - 1])
  }

  function AsOps(libs: Libraries, d: Disk, calls: seq<Call>): (ops: seq<SI.Op>)
    ensures |ops| == |calls|
  {
    if calls == [] then []
    else AsOps(libs, d, calls[..|calls| - 1]) + [AsOp(libs, DiskRun(libs, d, calls[..|calls| - 1]), calls[|calls| - 1])]
  }

  /** So a run on files is a run of the state machine, and all its theorems carry over. */
  lemma {:induction false} RunRefines(libs: Libraries, d: Disk, calls: seq<Call>)
    ensures LoadedState(DiskRun(libs, d, calls).stateFile) == SI.Run(LoadedState(d.stateFile), AsOps(libs, d, calls))
  {
    if calls != [] {
      var front := calls[..|calls| - 1];
      RunRefines(libs, d, front);
      CallRefines(libs, DiskRun(libs, d, front), calls[|calls| - 1]);
      assert AsOps(libs, d, calls)[..|calls| - 1] == AsOps(libs, d, front);
    }
  }

  // ---------------------------------------------------------------- the event log over runs

  /** A call that moved an unreadable state file away, and a launch that condemned a patch, each owe the log an event. */
  function Owed(before: Disk, after: Disk, call: Call): seq<RollbackEvent> {
    var had, has := LoadedState(before.stateFile), LoadedState(after.stateFile);
    (if before.stateFile.Corrupt? && !after.stateFile.Corrupt? then [StateReset] else [])
    + (if call.LaunchCall? && |has.bad| > |had.bad| then [CrashRollback(has.bad[|has.bad| - 1], 3, had.lastKnownGood)] else [])
  }

  lemma LaunchOwes(s: State)
    requires SI.Inv(s)
    ensures var t := LaunchState(s);
            LaunchEvents(s) ==
            if |t.bad| > |s.bad| then [CrashRollback(t.bad[|t.bad| - 1], 3, s.lastKnownGood)] else []
  {
  }

  /** Every call logs exactly what it owes. */
  lemma CallLogs(libs: Libraries, d: Disk, call: Call)
    requires SI.Inv(LoadedState(d.stateFile)) && |d.events| <= EventLog.MAX_ROLLBACK_EVENTS
    ensures var e := DiskAfter(libs, d, call);
            e.events == EventLog.Latest(d.events + Owed(d, e, call)) && |Owed(d, e, call)| <= 1
  {
    hide SI.Inv, DiskAfter, LaunchState, LaunchEvents, AfterLoad, EventLog.Latest;
    ShortLog(d.events);
    assert d.events + [] == d.events;
    if call.LaunchCall? {
      LaunchOwes(LoadedState(d.stateFile));
      LaunchLogs(libs, d);
      LaunchRefines(d);
      var e := DiskAfter(libs, d, call);
      assert Owed(d, e, call) == if d.stateFile.Corrupt? then [StateReset] else LaunchEvents(LoadedState(d.stateFile));
    } else {
      OthersLog(libs, d, call);
      var e := DiskAfter(libs, d, call);
      assert Owed(d, e, call) == if d.stateFile.Corrupt? && !e.stateFile.Corrupt? then [StateReset] else [];
    }
  }

  lemma OthersLog(libs: Libraries, d: Disk, call: Call)
    requires !call.LaunchCall?
    ensures var e := DiskAfter(libs, d, call);
            e.events == if d.stateFile.Corrupt? && !e.stateFile.Corrupt? then EventLog.Latest(d.events + [StateReset]) else d.events
  {
    hide MarkSuccessState, MarkFailureState, Derived, Prune, AddPending, LoadedState;
  }

  lemma LaunchLogs(libs: Libraries, d: Disk)
    ensures var e, s := DiskAfter(libs, d, LaunchCall), LoadedState(d.stateFile);
            && e == DiskAfterLaunch(d) && !e.stateFile.Corrupt? && |LaunchEvents(s)| <= 1
            && (d.stateFile.Corrupt? ==> LaunchEvents(s) == [] && e.events == EventLog.Latest(d.events + [StateReset]))
            && (!d.stateFile.Corrupt? ==>
                  e.events == if LaunchEvents(s) == [] then d.events else EventLog.Latest(d.events + LaunchEvents(s)))
  {
    hide LaunchState, EventLog.Latest;
  }

  function AllOwed(libs: Libraries, d: Disk, calls: seq<Call>): seq<RollbackEvent> {
    if calls == [] then []
    else
      var before := DiskRun(libs, d, calls[..|calls| - 1]);
      AllOwed(libs, d, calls[..|calls| - 1]) + Owed(before, DiskAfter(libs, before, calls[|calls| - 1]), calls[|calls| - 1])
  }

  lemma LatestJoins<E>(a: seq<E>, b: seq<E>)
    requires |b| <= 1
    ensures EventLog.Latest(EventLog.Latest(a) + b) == EventLog.Latest(a + b)
  {
  }

  /** Over a whole run on files the log is the latest fifty of what was there and what each reset and condemnation owed. */
  lemma {:induction false} RunLogs(libs: Libraries, d: Disk, calls: seq<Call>)
    requires SI.Inv(LoadedState(d.stateFile)) && |d.events| <= EventLog.MAX_ROLLBACK_EVENTS
    ensures DiskRun(libs, d, calls).events == EventLog.Latest(d.events + AllOwed(libs, d, calls))
    decreases |calls|
  {
    hide SI.Inv, DiskAfter, Owed, EventLog.Latest, LoadedState;
    if calls == [] {
      assert d.events + [] == d.events;
      ShortLog(d.events);
    } else {
      var front, last := calls[..|calls| - 1], calls[|calls| - 1];
      RunLogs(libs, d, front);
      var before := DiskRun(libs, d, front);
      RunRefines(libs, d, front);
      SI.RunKeepsInv(LoadedState(d.stateFile), AsOps(libs, d, front));
      CallLogs(libs, before, last);
      var owed := Owed(before, DiskAfter(libs, before, last), last);
      LatestJoins(d.events + AllOwed(libs, d, front), owed);
      assert d.events + AllOwed(libs, d, front) + owed == d.events + (AllOwed(libs, d, front) + owed);
    }
  }

  lemma ShortLog<E>(events: seq<E>)
    requires |events| <= EventLog.MAX_ROLLBACK_EVENTS
    ensures EventLog.Latest(events) == events
  {
  }
}
