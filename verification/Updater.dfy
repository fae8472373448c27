/**
  The updater as it runs on the device (crates/fcb_core/src/state.rs): every operation loads
  the state file, changes it and writes it back. Each method is proved against the functions
  of `UpdaterState`; `Disk` is what the methods leave behind.
 */
module UpdaterDisk {
  import opened Basics
  import opened UpdaterState
  import EventLog
  import BinaryDiff

  datatype StateFile = Missing | Corrupt | Saved(state: State)

  /** `artifacts` holds the `patches/<n>/libapp.so` files. */
  datatype Disk = Disk(stateFile: StateFile, events: seq<RollbackEvent>, artifacts: map<u32, Bytes>)

  function LoadedState(f: StateFile): State {
    if f.Saved? then Migrate(f.state) else DEFAULT_STATE
  }

  /** Loading moves an unreadable state file away and records the reset. */
  function AfterLoad(d: Disk): Disk {
    if d.stateFile.Corrupt? then d.(stateFile := Missing, events := EventLog.AppendEvent(d.events, StateReset)) else d
  }

  function DiskAfterLaunch(d: Disk): Disk {
    var s, e := LoadedState(d.stateFile), AfterLoad(d);
    var noted := if Condemns(s) then e.(events := EventLog.AppendEvent(e.events, LaunchEvents(s)[0])) else e;
    if AwaitsSuccess(s) || LaunchedPatch(s).Some? then noted.(stateFile := Saved(LaunchState(s))) else noted
  }

  function DiskAfterSuccess(d: Disk): Disk {
    var s, e := LoadedState(d.stateFile), AfterLoad(d);
    if MarkSuccessError(s).Some? then e else e.(stateFile := Saved(MarkSuccessState(s)))
  }

  function DiskAfterFailure(d: Disk, n: u32, reason: string): Disk {
    AfterLoad(d).(stateFile := Saved(MarkFailureState(LoadedState(d.stateFile), n, reason)))
  }

  // ---------------------------------------------------------------- install

  datatype PayloadKind = BytecodeModule | BinaryDiffPayload | OtherKind(name: string)

  datatype ManifestBackend = Known(backend: Backend) | Unsupported(name: string)

  datatype Manifest = Manifest(
    releaseVersion: string,
    patchNumber: u32,
    backend: ManifestBackend,
    kind: PayloadKind,
    payloadHash: string,
    diffAlgorithm: Option<string>,
    baseHash: Option<string>,
    outputHash: Option<string>)

  /** Signature check and bytecode envelope check, besides the diff libraries. */
  datatype Libraries = Libraries(
    diff: BinaryDiff.DiffLibraries,
    signatureValid: (Manifest, string) -> bool,
    envelopeValid: Bytes -> bool)

  datatype InstallError =
    | BadSignature | PayloadHashMismatch | BadContract | NoBase | BaselineHashMismatch
    | DiffFailed(error: BinaryDiff.DiffError) | ArtifactHashMismatch

  predicate PayloadContract(libs: Libraries, m: Manifest, payload: Bytes) {
    match m.backend
    case Known(Bytecode) => m.kind.BytecodeModule? && libs.envelopeValid(payload)
    case Known(SnapshotReplace) =>
      m.kind.BinaryDiffPayload? && m.diffAlgorithm.Some? && m.baseHash.Some? && m.outputHash.Some?
    case Unsupported(_) => false
  }

  /** The newest installed artifact with the expected hash, or else the baseline. */
  function FindDiffBase(libs: Libraries, expected: string, installed: seq<InstalledPatch>,
                        artifacts: map<u32, Bytes>, baseline: Option<Bytes>): Result<Bytes, InstallError> {
    if installed != [] then
      var last := installed[|installed| - 1];
      if last.artifact && last.patchNumber in artifacts && libs.diff.sha256(artifacts[last.patchNumber]) == expected
      then Ok(artifacts[last.patchNumber])
      else FindDiffBase(libs, expected, installed[..|installed| - 1], artifacts, baseline)
    else if baseline.None? then Err(NoBase)
    else if libs.diff.sha256(baseline.value) != expected then Err(BaselineHashMismatch)
    else Ok(baseline.value)
  }

  function ChainedDiff(libs: Libraries, m: Manifest, payload: Bytes, installed: seq<InstalledPatch>,
                       artifacts: map<u32, Bytes>, baseline: Option<Bytes>): Result<Bytes, InstallError>
    requires m.diffAlgorithm.Some? && m.baseHash.Some? && m.outputHash.Some?
  {
    match FindDiffBase(libs, m.baseHash.value, installed, artifacts, baseline)
    case Err(e) => Err(e)
    case Ok(base) =>
      match BinaryDiff.ApplyBinaryDiff(libs.diff, m.diffAlgorithm.value, base, payload)
      case Err(e) => Err(DiffFailed(e))
      case Ok(artifact) =>
        if libs.diff.sha256(artifact) != m.outputHash.value then Err(ArtifactHashMismatch) else Ok(artifact)
  }

  /** The checks an install makes before it touches the state, and the artifact it derives. */
  function Derived(libs: Libraries, d: Disk, m: Manifest, payload: Bytes, key: string, baseline: Option<Bytes>)
    : Result<Option<Bytes>, InstallError>
  {
    if !libs.signatureValid(m, key) then Err(BadSignature)
    else if libs.diff.sha256(payload) != m.payloadHash then Err(PayloadHashMismatch)
    else if !PayloadContract(libs, m, payload) then Err(BadContract)
    else if m.backend == Known(SnapshotReplace) then
      match ChainedDiff(libs, m, payload, LoadedState(d.stateFile).installed, d.artifacts, baseline)
      case Err(e) => Err(e)
      case Ok(artifact) => Ok(Some(artifact))
    else Ok(None)
  }

  /** An install refused before the state is loaded leaves the disk alone; a failed diff only loads. */
  function LoadsState(libs: Libraries, m: Manifest, payload: Bytes, key: string): bool {
    libs.signatureValid(m, key) && libs.diff.sha256(payload) == m.payloadHash && PayloadContract(libs, m, payload)
  }

  function Entry(m: Manifest): InstalledPatch
    requires m.backend.Known?
  {
    InstalledPatch(m.patchNumber, m.backend.backend, m.backend.backend.SnapshotReplace?)
  }

  function WithArtifact(artifacts: map<u32, Bytes>, n: u32, artifact: Option<Bytes>): map<u32, Bytes> {
    if artifact.Some? then artifacts[n := artifact.value] else artifacts
  }

  function DiskAfterInstall(libs: Libraries, d: Disk, m: Manifest, payload: Bytes, key: string, baseline: Option<Bytes>): Disk {
    match Derived(libs, d, m, payload, key, baseline)
    case Err(_) => if LoadsState(libs, m, payload, key) then AfterLoad(d) else d
    case Ok(artifact) =>
      var t := AddPending(LoadedState(d.stateFile), m.releaseVersion, Entry(m));
      var (kept, files) := Prune(t, t.installed, WithArtifact(d.artifacts, m.patchNumber, artifact));
      Disk(Saved(t.(installed := kept)), AfterLoad(d).events, files)
  }

  // ---------------------------------------------------------------- what an install requires

  /** Signed by the key, and carrying the payload it announces. */
  predicate Authentic(libs: Libraries, m: Manifest, payload: Bytes, key: string) {
    libs.signatureValid(m, key) && libs.diff.sha256(payload) == m.payloadHash
  }

  /** A bytecode patch with a good envelope, or a binary diff with everything that is needed to apply it. */
  predicate Fitting(libs: Libraries, m: Manifest, payload: Bytes) {
    || (m.backend == Known(Bytecode) && m.kind == BytecodeModule && libs.envelopeValid(payload))
    || (m.backend == Known(SnapshotReplace) && m.kind == BinaryDiffPayload
        && m.diffAlgorithm != None && m.baseHash != None && m.outputHash != None)
  }

  /** An installed entry whose artifact can be read and has the hash. */
  predicate HasHash(libs: Libraries, p: InstalledPatch, artifacts: map<u32, Bytes>, hash: string) {
    p.artifact && p.patchNumber in artifacts && libs.diff.sha256(artifacts[p.patchNumber]) == hash
  }

  /** `base` is the newest installed artifact with the hash, or a baseline with the hash when there is none. */
  ghost predicate IsBase(libs: Libraries, hash: string, installed: seq<InstalledPatch>, artifacts: map<u32, Bytes>,
                         baseline: Option<Bytes>, base: Bytes) {
    || (exists i | 0 <= i < |installed| ::
          && HasHash(libs, installed[i], artifacts, hash) && base == artifacts[installed[i].patchNumber]
          && forall j | i < j < |installed| :: !HasHash(libs, installed[j], artifacts, hash))
    || (baseline == Some(base) && libs.diff.sha256(base) == hash
        && forall j | 0 <= j < |installed| :: !HasHash(libs, installed[j], artifacts, hash))
  }

  lemma {:induction false} FindsBaseIff(libs: Libraries, hash: string, installed: seq<InstalledPatch>,
                                        artifacts: map<u32, Bytes>, baseline: Option<Bytes>, base: Bytes)
    ensures FindDiffBase(libs, hash, installed, artifacts, baseline) == Ok(base) <==>
            IsBase(libs, hash, installed, artifacts, baseline, base)
  {
    if installed != [] {
      var front, last := installed[..|installed| - 1], installed[|installed| - 1];
      assert installed == front + [last];
      FindsBaseIff(libs, hash, front, artifacts, baseline, base);
      NewestFirst(libs, hash, front, last, artifacts, baseline, base);
    }
  }

  lemma NewestFirst(libs: Libraries, hash: string, front: seq<InstalledPatch>, last: InstalledPatch,
                    artifacts: map<u32, Bytes>, baseline: Option<Bytes>, base: Bytes)
    ensures IsBase(libs, hash, front + [last], artifacts, baseline, base) <==>
            if HasHash(libs, last, artifacts, hash) then base == artifacts[last.patchNumber]
            else IsBase(libs, hash, front, artifacts, baseline, base)
  {
    var all, k := front + [last], |front|;
    assert all[k] == last && forall i | 0 <= i < k :: all[i] == front[i];
    if HasHash(libs, last, artifacts, hash) {
      assert HasHash(libs, all[k], artifacts, hash);
    } else {
      if i :| 0 <= i < k && HasHash(libs, front[i], artifacts, hash) && base == artifacts[front[i].patchNumber]
              && forall j | i < j < k :: !HasHash(libs, front[j], artifacts, hash) {
        assert HasHash(libs, all[i], artifacts, hash);
      }
      if i :| 0 <= i <= k && HasHash(libs, all[i], artifacts, hash) && base == artifacts[all[i].patchNumber]
              && forall j | i < j <= k :: !HasHash(libs, all[j], artifacts, hash) {
        assert HasHash(libs, front[i], artifacts, hash);
        assert forall j | i < j < k :: !HasHash(libs, all[j], artifacts, hash);
      }
    }
  }

  /** Applied to its base, the diff yields `artifact`, with the announced hashes. */
  ghost predicate Yields(libs: Libraries, d: Disk, m: Manifest, payload: Bytes, baseline: Option<Bytes>, artifact: Bytes) {
    && m.diffAlgorithm.Some? && m.baseHash.Some? && m.outputHash == Some(libs.diff.sha256(artifact))
    && exists base ::
         && IsBase(libs, m.baseHash.value, LoadedState(d.stateFile).installed, d.artifacts, baseline, base)
         && BinaryDiff.Turns(libs.diff, m.diffAlgorithm.value, base, payload, artifact)
  }

  ghost predicate Installable(libs: Libraries, d: Disk, m: Manifest, payload: Bytes, key: string, baseline: Option<Bytes>) {
    && Authentic(libs, m, payload, key) && Fitting(libs, m, payload)
    && (m.backend == Known(SnapshotReplace) ==> exists artifact :: Yields(libs, d, m, payload, baseline, artifact))
  }

  lemma YieldsIff(libs: Libraries, d: Disk, m: Manifest, payload: Bytes, baseline: Option<Bytes>, artifact: Bytes)
    requires m.diffAlgorithm.Some? && m.baseHash.Some? && m.outputHash.Some?
    ensures ChainedDiff(libs, m, payload, LoadedState(d.stateFile).installed, d.artifacts, baseline) == Ok(artifact) <==>
            Yields(libs, d, m, payload, baseline, artifact)
  {
    hide FindDiffBase, IsBase, BinaryDiff.ApplyBinaryDiff, LoadedState;
    var installed := LoadedState(d.stateFile).installed;
    var found := FindDiffBase(libs, m.baseHash.value, installed, d.artifacts, baseline);
    if found.Ok? {
      FindsBaseIff(libs, m.baseHash.value, installed, d.artifacts, baseline, found.value);
    }
    if base :| IsBase(libs, m.baseHash.value, installed, d.artifacts, baseline, base)
               && BinaryDiff.Turns(libs.diff, m.diffAlgorithm.value, base, payload, artifact) {
      FindsBaseIff(libs, m.baseHash.value, installed, d.artifacts, baseline, base);
    }
  }

  /** Exactly the installable patches are installed, with exactly the artifact their diff yields. */
  lemma InstallsIff(libs: Libraries, d: Disk, m: Manifest, payload: Bytes, key: string, baseline: Option<Bytes>)
    ensures Derived(libs, d, m, payload, key, baseline).Ok? <==> Installable(libs, d, m, payload, key, baseline)
    ensures forall artifact | Derived(libs, d, m, payload, key, baseline) == Ok(Some(artifact)) ::
              Yields(libs, d, m, payload, baseline, artifact)
    ensures Derived(libs, d, m, payload, key, baseline) == Ok(None) ==> m.backend == Known(Bytecode)
  {
    hide ChainedDiff, Yields, LoadedState;
    if Authentic(libs, m, payload, key) && Fitting(libs, m, payload) && m.backend == Known(SnapshotReplace) {
      forall artifact
        ensures ChainedDiff(libs, m, payload, LoadedState(d.stateFile).installed, d.artifacts, baseline) == Ok(artifact) <==>
                Yields(libs, d, m, payload, baseline, artifact)
      {
        YieldsIff(libs, d, m, payload, baseline, artifact);
      }
    }
  }

  /** A refused install changes neither the state nor any artifact. */
  lemma RefusedInstallChangesNothing(libs: Libraries, d: Disk, m: Manifest, payload: Bytes, key: string, baseline: Option<Bytes>)
    requires !Installable(libs, d, m, payload, key, baseline)
    ensures var e := DiskAfterInstall(libs, d, m, payload, key, baseline);
            LoadedState(e.stateFile) == LoadedState(d.stateFile) && e.artifacts == d.artifacts
  {
    hide Installable, Derived;
    InstallsIff(libs, d, m, payload, key, baseline);
  }

  class Updater {
    const libs: Libraries
    var stateFile: StateFile
    var events: seq<RollbackEvent>
    var artifacts: map<u32, Bytes>

    constructor (libs: Libraries)
      ensures this.libs == libs && Contents() == Disk(Missing, [], map[])
    {
      this.libs := libs;
      stateFile, events, artifacts := Missing, [], map[];
    }

    ghost function Contents(): Disk
      reads this
    {
      Disk(stateFile, events, artifacts)
    }

    method AppendRollbackEvent(event: RollbackEvent)
      modifies this`events
      ensures events == EventLog.AppendEvent(old(events), event)
    {
      var lines := events;
      lines := lines + [event];
      if |lines| > EventLog.MAX_ROLLBACK_EVENTS {
        lines := lines[|lines| - EventLog.MAX_ROLLBACK_EVENTS..];
      }
      events := lines;
    }

    method LoadState() returns (state: State)
      modifies this`stateFile, this`events
      ensures state == LoadedState(old(stateFile))
      ensures Contents() == AfterLoad(old(Contents()))
    {
      if stateFile.Missing? {
        return DEFAULT_STATE;
      }
      if stateFile.Corrupt? {
        stateFile := Missing;
        AppendRollbackEvent(StateReset);
        return DEFAULT_STATE;
      }
      state := stateFile.state;
      if state.schemaVersion < STATE_SCHEMA_VERSION {
        if state.lastKnownGood.None? && state.current > 0 {
          state := state.(lastKnownGood := Some(state.current));
        }
        state := state.(schemaVersion := STATE_SCHEMA_VERSION);
      }
    }

    /** `mark_patch_bad`: four fields change, in this order; each test sees the earlier writes. */
    static method MarkBad(before: State, n: u32) returns (state: State)
      ensures state == MarkPatchBad(before, n)
    {
      state := before;
      if n !in state.bad {
        state := state.(bad := state.bad + [n]);
      }
      if state.current == n {
        var fallback := if state.lastKnownGood.Some? && state.lastKnownGood.value != n then state.lastKnownGood.value else 0;
        state := state.(current := fallback);
      }
      if state.pending == Some(n) {
        state := state.(pending := None);
      }
      if state.lastKnownGood == Some(n) {
        state := state.(lastKnownGood := None);
      }
      state := state.(bootAttempts := 0);
    }

    method LaunchPatch() returns (patch: Option<InstalledPatch>)
      modifies this`stateFile, this`events
      ensures patch == LaunchedPatch(LoadedState(old(stateFile)))
      ensures Contents() == DiskAfterLaunch(old(Contents()))
    {
      var state := LoadState();
      var changed := false;
      if state.lastLaunch.Some? && state.lastLaunch.value.status.PendingSuccess? {
        var n := state.lastLaunch.value.patchNumber;
        if SaturatingIncrement(state.bootAttempts) >= MAX_BOOT_ATTEMPTS {
          AppendRollbackEvent(CrashRollback(n, SaturatingIncrement(state.bootAttempts), state.lastKnownGood));
          state := MarkBad(state, n);
        }
        state := state.(lastLaunch := None);
        changed := true;
      }
      var selected := SelectLaunchPatchNumber(state);
      if selected.None? {
        if changed { stateFile := Saved(state); }
        return None;
      }
      patch := FindPatch(state.installed, selected.value);
      if patch.Some? {
        state := state.(bootAttempts := SaturatingIncrement(state.bootAttempts),
                        lastLaunch := Some(LastLaunch(selected.value, PendingSuccess)));
        changed := true;
      }
      if changed { stateFile := Saved(state); }
    }

    method Ready() returns (patch: Option<InstalledPatch>)
      modifies this`stateFile, this`events
      ensures patch == ReadyPatch(LoadedState(old(stateFile)))
      ensures Contents() == AfterLoad(old(Contents()))
    {
      var state := LoadState();
      if state.pending.None? || state.pending.value in state.bad {
        return None;
      }
      patch := FindPatch(state.installed, state.pending.value);
    }

    method MarkSuccess() returns (error: Option<SuccessError>)
      modifies this`stateFile, this`events
      ensures error == MarkSuccessError(LoadedState(old(stateFile)))
      ensures Contents() == DiskAfterSuccess(old(Contents()))
    {
      var state := LoadState();
      if state.lastLaunch.None? { return Some(NoLastLaunch); }
      var last := state.lastLaunch.value;
      if last.patchNumber in state.bad { return Some(BadPatch); }
      if last.status.Failed? { return Some(FailedLaunch); }
      state := state.(current := last.patchNumber);
      state := state.(lastKnownGood := Some(last.patchNumber));
      state := state.(pending := None);
      state := state.(bootAttempts := 0);
      state := state.(lastLaunch := Some(last.(status := LaunchStatus.Succeeded)));
      stateFile := Saved(state);
      return None;
    }

    method MarkFailure(n: u32, reason: string)
      modifies this`stateFile, this`events
      ensures Contents() == DiskAfterFailure(old(Contents()), n, reason)
      ensures stateFile.Saved? && Condemned(LoadedState(old(stateFile)), stateFile.state, n)
      ensures stateFile.state.lastLaunch == Some(LastLaunch(n, Failed(reason)))
    {
      MarkPatchBadCondemns(LoadedState(stateFile), n);
      var state := LoadState();
      state := MarkBad(state, n);
      state := state.(lastLaunch := Some(LastLaunch(n, LaunchStatus.Failed(reason))));
      stateFile := Saved(state);
    }

    method SelectDiffBase(expected: string, installed: seq<InstalledPatch>, baseline: Option<Bytes>)
      returns (r: Result<Bytes, InstallError>)
      ensures r == FindDiffBase(libs, expected, installed, artifacts, baseline)
    {
      var i := |installed|;
      assert installed[..i] == installed;
      while i > 0
        invariant 0 <= i <= |installed|
        invariant FindDiffBase(libs, expected, installed, artifacts, baseline)
               == FindDiffBase(libs, expected, installed[..i], artifacts, baseline)
      {
        i := i - 1;
        assert installed[..i + 1][..i] == installed[..i];
        if !installed[i].artifact || installed[i].patchNumber !in artifacts {
          continue;
        }
        var candidate := artifacts[installed[i].patchNumber];
        if libs.diff.sha256(candidate) == expected {
          return Ok(candidate);
        }
      }
      if baseline.None? { return Err(NoBase); }
      if libs.diff.sha256(baseline.value) != expected { return Err(BaselineHashMismatch); }
      return Ok(baseline.value);
    }

    method SnapshotReplaceChainedDiff(m: Manifest, payload: Bytes, installed: seq<InstalledPatch>, baseline: Option<Bytes>)
      returns (r: Result<Bytes, InstallError>)
      requires m.diffAlgorithm.Some? && m.baseHash.Some? && m.outputHash.Some?
      ensures r == ChainedDiff(libs, m, payload, installed, artifacts, baseline)
    {
      var base := SelectDiffBase(m.baseHash.value, installed, baseline);
      if base.Err? { return Err(base.error); }
      var artifact := BinaryDiff.ApplyBinaryDiff(libs.diff, m.diffAlgorithm.value, base.value, payload);
      if artifact.Err? { return Err(DiffFailed(artifact.error)); }
      if libs.diff.sha256(artifact.value) != m.outputHash.value { return Err(ArtifactHashMismatch); }
      return Ok(artifact.value);
    }

    /** The prune loop: drop the first entry nothing protects, with its directory, while more than two remain. */
    method PruneInstalled(before: State) returns (state: State)
      modifies this`artifacts
      ensures (state.installed, artifacts) == Prune(before, before.installed, old(artifacts))
      ensures state == before.(installed := state.installed)
    {
      state := before;
      while |state.installed| > MAX_RETAINED
        invariant state == before.(installed := state.installed)
        invariant Prune(before, before.installed, old(artifacts)) == Prune(before, state.installed, artifacts)
        decreases |state.installed|
      {
        var index := FirstUnprotected(before, state.installed);
        if index == |state.installed| { break; }
        var dropped := state.installed[index].patchNumber;
        state := state.(installed := state.installed[..index] + state.installed[index + 1..]);
        artifacts := artifacts - {dropped};
      }
    }

    method InstallPayloadWithBaseline(m: Manifest, payload: Bytes, key: string, baseline: Option<Bytes>)
      returns (error: Option<InstallError>)
      modifies this
      ensures Contents() == DiskAfterInstall(libs, old(Contents()), m, payload, key, baseline)
      ensures error == match Derived(libs, old(Contents()), m, payload, key, baseline) case Ok(_) => None case Err(e) => Some(e)
      ensures error.None? <==> Installable(libs, old(Contents()), m, payload, key, baseline)
      ensures error.Some? ==> LoadedState(stateFile) == LoadedState(old(stateFile)) && artifacts == old(artifacts)
    {
      InstallsIff(libs, Contents(), m, payload, key, baseline);
      hide Prune, SortByPatch, Without, ChainedDiff, Migrate, Installable, Yields;
      if !libs.signatureValid(m, key) { return Some(BadSignature); }
      if libs.diff.sha256(payload) != m.payloadHash { return Some(PayloadHashMismatch); }
      if !PayloadContract(libs, m, payload) { return Some(BadContract); }
      var state := LoadState();
      if m.backend.backend.SnapshotReplace? {
        var artifact := SnapshotReplaceChainedDiff(m, payload, state.installed, baseline);
        if artifact.Err? { return Some(artifact.error); }
        artifacts := artifacts[m.patchNumber := artifact.value];
      }
      var entry := InstalledPatch(m.patchNumber, m.backend.backend, m.backend.backend.SnapshotReplace?);
      state := state.(schemaVersion := STATE_SCHEMA_VERSION, releaseVersion := m.releaseVersion);
      state := state.(pending := Some(m.patchNumber), bootAttempts := 0);
      var installed := Without(state.installed, m.patchNumber) + [entry];
      state := state.(installed := SortByPatch(installed));
      state := PruneInstalled(state);
      stateFile := Saved(state);
      return None;
    }
  }
}
