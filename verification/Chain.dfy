/** A chain of published diffs rebuilds every target on the device, although only two artifacts are ever kept. */
module Chain {
  import opened Basics
  import opened UpdaterState
  import opened UpdaterDisk
  import opened DiskRuns
  import BinaryDiff
  import SI = StateInvariant

  /** `snapshot_replace_diff_base`: the previous patch's artifact if it is cached, else the release's. */
  function SnapshotReplaceDiffBase(n: u32, previous: Option<Bytes>, release: Option<Bytes>): Option<Bytes> {
    if n > 1 && previous.Some? then previous else release
  }

  datatype Publication = Publication(manifest: Manifest, payload: Bytes, previousCached: bool)

  /** `targets[0]` is the release artifact and `targets[k]` what patch `k` must leave. */
  ghost predicate Published(libs: Libraries, key: string, targets: seq<Bytes>, k: nat, p: Publication)
    requires 0 < k < |targets|
  {
    var m := p.manifest;
    && m.patchNumber == k && m.backend == Known(SnapshotReplace) && m.kind == BinaryDiffPayload
    && libs.signatureValid(m, key) && m.payloadHash == libs.diff.sha256(p.payload)
    && m.outputHash == Some(libs.diff.sha256(targets[k]))
    && m.diffAlgorithm.Some?
    && var base := SnapshotReplaceDiffBase(k as u32, if p.previousCached then Some(targets[k - 1]) else None, Some(targets[0]));
    && m.baseHash == Some(libs.diff.sha256(base.value))
    && BinaryDiff.Turns(libs.diff, m.diffAlgorithm.value, base.value, p.payload, targets[k])
  }

  /**
    What the command line publishes as patch `k`: a bsdiff against the base its cache selects, with the hashes of base,
    payload and target. `older` stands for patches published with the prefix/suffix diff, which devices still apply.
   */
  method Publish(libs: Libraries, release: string, targets: seq<Bytes>, k: nat, previousCached: bool, older: bool)
    returns (p: Publication)
    requires 0 < k < |targets| <= U32_MAX
    requires if older then BinaryDiff.JsonRoundTrips(libs.diff) else BinaryDiff.BsdiffRoundTrips(libs.diff)
    requires older ==> forall target | target in targets :: |target| < BinaryDiff.USIZE_LIMIT
    ensures p.previousCached == previousCached
    ensures p.manifest.baseHash == Some(libs.diff.sha256(if k > 1 && previousCached then targets[k - 1] else targets[0]))
    ensures p.manifest.diffAlgorithm == Some(if older then "fcb-simple-v1" else "bsdiff-zstd-v1")
    ensures forall key | libs.signatureValid(p.manifest, key) :: Published(libs, key, targets, k, p)
  {
    hide BinaryDiff.ApplyBinaryDiff, BinaryDiff.JsonRoundTrips, BinaryDiff.BsdiffRoundTrips;
    var base := SnapshotReplaceDiffBase(k as u32, if previousCached then Some(targets[k - 1]) else None, Some(targets[0])).value;
    var payload, algorithm;
    if older {
      var output;
      payload, output := BinaryDiff.SimpleRoundTrip(libs.diff, base, targets[k]);
      algorithm := BinaryDiff.SIMPLE_DIFF_ALGORITHM;
    } else {
      payload := libs.diff.bsdiff(base, targets[k]);
      algorithm := BinaryDiff.BSDIFF_ZSTD_ALGORITHM;
      BinaryDiff.BsdiffTurns(libs.diff, base, targets[k]);
    }
    var manifest := Manifest(release, k as u32, Known(SnapshotReplace), BinaryDiffPayload, libs.diff.sha256(payload),
                             Some(algorithm), Some(libs.diff.sha256(base)), Some(libs.diff.sha256(targets[k])));
    return Publication(manifest, payload, previousCached);
  }

  ghost predicate Publications(libs: Libraries, key: string, targets: seq<Bytes>, ps: seq<Publication>) {
    && |targets| == |ps| + 1 && |targets| <= U32_MAX
    && forall i | 0 <= i < |ps| :: Published(libs, key, targets, i + 1, ps[i])
  }

  /** The only thing asked of SHA-256: no two different artifacts of this chain collide. */
  ghost predicate CollisionFree(libs: Libraries, targets: seq<Bytes>) {
    forall i, j | 0 <= i < |targets| && 0 <= j < |targets| ::
      libs.diff.sha256(targets[i]) == libs.diff.sha256(targets[j]) ==> targets[i] == targets[j]
  }

  /** A device is offered the next patch, or makes any call that neither installs nor loses the state file. */
  datatype Step = Deliver | Other(call: Call)

  ghost predicate Harmless(steps: seq<Step>) {
    forall s | s in steps :: s.Other? ==> !s.call.InstallCall? && !s.call.CorruptFile?
  }

  datatype Device = Device(disk: Disk, delivered: nat)

  function ChainRun(libs: Libraries, key: string, release: Bytes, ps: seq<Publication>, d: Disk, steps: seq<Step>): Device {
    if steps == [] then Device(d, 0)
    else
      var before := ChainRun(libs, key, release, ps, d, steps[..|steps| - 1]);
      match steps[|steps| - 1]
      case Other(call) => before.(disk := DiskAfter(libs, before.disk, call))
      case Deliver =>
        if before.delivered >= |ps| then before
        else
          var p := ps[before.delivered];
          Device(DiskAfterInstall(libs, before.disk, p.manifest, p.payload, key, Some(release)), before.delivered + 1)
  }

  /** The entries hold the targets they are numbered for, only entries have files, and the newest delivery is among them. */
  ghost predicate Holds(d: Disk, targets: seq<Bytes>, k: nat) {
    var s := LoadedState(d.stateFile);
    && SI.Inv(s)
    && k < |targets| <= U32_MAX
    && (forall p | p in s.installed :: 0 < p.patchNumber <= k && p.artifact
                                       && p.patchNumber in d.artifacts && d.artifacts[p.patchNumber] == targets[p.patchNumber])
    && (forall n | n in d.artifacts :: IsInstalled(s.installed, n))
    && (k > 0 ==> IsInstalled(s.installed, k as u32))
  }

  // ---------------------------------------------------------------- finding the base

  /** Among artifacts that are all targets, the search returns the base it was asked for. */
  lemma {:induction false} FindsBase(libs: Libraries, targets: seq<Bytes>, b: nat, installed: seq<InstalledPatch>, artifacts: map<u32, Bytes>)
    requires CollisionFree(libs, targets) && b < |targets|
    requires forall p | p in installed :: p.artifact && p.patchNumber < |targets|
                                          && p.patchNumber in artifacts && artifacts[p.patchNumber] == targets[p.patchNumber]
    requires b == 0 || exists p | p in installed :: p.patchNumber == b
    ensures FindDiffBase(libs, libs.diff.sha256(targets[b]), installed, artifacts, Some(targets[0])) == Ok(targets[b])
  {
    if installed != [] {
      var k := |installed| - 1;
      var last := installed[k];
      assert installed == installed[..k] + [last];
      if libs.diff.sha256(targets[last.patchNumber]) != libs.diff.sha256(targets[b]) {
        FindsBase(libs, targets, b, installed[..k], artifacts);
      }
    }
  }

  /** Whatever the publisher's cache held, the next patch applies and yields its target. */
  lemma NextDeliverySucceeds(libs: Libraries, key: string, targets: seq<Bytes>, ps: seq<Publication>, d: Disk, k: nat)
    requires Publications(libs, key, targets, ps) && CollisionFree(libs, targets) && Holds(d, targets, k) && k < |ps|
    ensures Derived(libs, d, ps[k].manifest, ps[k].payload, key, Some(targets[0])) == Ok(Some(targets[k + 1]))
  {
    assert Published(libs, key, targets, k + 1, ps[k]);
    var b := if k > 0 && ps[k].previousCached then k else 0;
    FindsBase(libs, targets, b, LoadedState(d.stateFile).installed, d.artifacts);
  }

  // ---------------------------------------------------------------- what an install does to the files

  lemma DropNumber(ps: seq<InstalledPatch>, i: nat, n: u32)
    requires StrictlySorted(ps) && i < |ps|
    ensures IsInstalled(ps[..i] + ps[i + 1..], n) <==> IsInstalled(ps, n) && n != ps[i].patchNumber
  {
    SI.DropAt(ps, i);
    if p :| p in ps && p.patchNumber == n && p != ps[i] {
      var j :| 0 <= j < |ps| && ps[j] == p;
      assert p in ps[..i] + ps[i + 1..];
    }
  }

  /** Pruning deletes exactly the directories of the entries it drops. */
  lemma {:induction false} PruneFiles(s: State, ps: seq<InstalledPatch>, artifacts: map<u32, Bytes>, n: u32)
    requires StrictlySorted(ps)
    ensures var (kept, files) := Prune(s, ps, artifacts);
            && (n in files <==> n in artifacts && (IsInstalled(ps, n) ==> IsInstalled(kept, n)))
            && (n in files ==> files[n] == artifacts[n])
    decreases |ps|
  {
    var i := FirstUnprotected(s, ps);
    if |ps| > MAX_RETAINED && i < |ps| {
      var rest, fewer := ps[..i] + ps[i + 1..], artifacts - {ps[i].patchNumber};
      SI.DropAt(ps, i);
      DropNumber(ps, i, n);
      PruneFiles(s, rest, fewer, n);
      SI.PruneBounds(s, rest, fewer);
    }
  }

  /** When only entries have files, an install leaves the files of what it leaves installed. */
  lemma InstallFiles(s: State, release: string, entry: InstalledPatch, files: map<u32, Bytes>)
    requires SI.Inv(s)
    requires forall n | n in files :: n == entry.patchNumber || IsInstalled(s.installed, n)
    ensures var t := AddPending(s, release, entry);
            var left := Prune(t, t.installed, files).1;
            && (forall n :: n in left <==> n in files && IsInstalled(InstallState(s, release, entry).installed, n))
            && (forall n | n in left :: left[n] == files[n])
  {
    hide Prune, SortByPatch, Without;
    var t := AddPending(s, release, entry);
    var (kept, left) := Prune(t, t.installed, files);
    SI.AddPendingInstalls(s, release, entry);
    SI.PruneIgnoresArtifacts(t, t.installed, files, map[]);
    forall n
      ensures n in left <==> n in files && IsInstalled(kept, n)
      ensures n in left ==> left[n] == files[n]
    {
      PruneFiles(t, t.installed, files, n);
      if n in files { FilesOfEntries(s.installed, t.installed, entry, n); }
    }
  }

  lemma DeliveredFiles(libs: Libraries, key: string, targets: seq<Bytes>, ps: seq<Publication>, d: Disk, k: nat)
    requires Publications(libs, key, targets, ps) && CollisionFree(libs, targets) && Holds(d, targets, k) && k < |ps|
    ensures var e := DiskAfterInstall(libs, d, ps[k].manifest, ps[k].payload, key, Some(targets[0]));
            var s := LoadedState(d.stateFile);
            var m := ps[k].manifest;
            && m.patchNumber == k + 1 && m.backend == Known(SnapshotReplace)
            && LoadedState(e.stateFile) == InstallState(s, m.releaseVersion, Entry(m))
            && (forall n :: n in e.artifacts <==> (n in d.artifacts || n == k + 1) && IsInstalled(LoadedState(e.stateFile).installed, n))
            && (forall n | n in e.artifacts :: e.artifacts[n] == if n == k + 1 then targets[k + 1] else d.artifacts[n])
  {
    hide Prune, SortByPatch, Without, ChainedDiff, SI.Inv, InstallState, AddPending;
    var m := ps[k].manifest;
    assert Published(libs, key, targets, k + 1, ps[k]);
    NextDeliverySucceeds(libs, key, targets, ps, d, k);
    InstallRefines(libs, d, m, ps[k].payload, key, Some(targets[0]));
    InstallFiles(LoadedState(d.stateFile), m.releaseVersion, Entry(m), d.artifacts[m.patchNumber := targets[k + 1]]);
  }

  lemma DeliveryHolds(libs: Libraries, key: string, targets: seq<Bytes>, ps: seq<Publication>, d: Disk, k: nat)
    requires Publications(libs, key, targets, ps) && CollisionFree(libs, targets) && Holds(d, targets, k) && k < |ps|
    ensures Holds(DiskAfterInstall(libs, d, ps[k].manifest, ps[k].payload, key, Some(targets[0])), targets, k + 1)
  {
    hide DiskAfterInstall, SI.Inv, InstallState, LoadedState, Published, CollisionFree, StrictlySorted, Distinct;
    var s, m := LoadedState(d.stateFile), ps[k].manifest;
    DeliveredFiles(libs, key, targets, ps, d, k);
    SI.InstallKeepsInv(s, m.releaseVersion, Entry(m));
    SI.InvOrders(s);
    SI.InstallRetains(s, m.releaseVersion, Entry(m));
  }

  lemma FilesOfEntries(before: seq<InstalledPatch>, after: seq<InstalledPatch>, entry: InstalledPatch, n: u32)
    requires forall p :: p in after <==> p == entry || (p in before && p.patchNumber != entry.patchNumber)
    requires n == entry.patchNumber || IsInstalled(before, n)
    ensures IsInstalled(after, n)
  {
    if n != entry.patchNumber {
      var p :| p in before && p.patchNumber == n;
      assert p in after;
    }
  }

  lemma OtherCallHolds(libs: Libraries, targets: seq<Bytes>, d: Disk, k: nat, call: Call)
    requires Holds(d, targets, k) && !call.InstallCall? && !call.CorruptFile?
    ensures Holds(DiskAfter(libs, d, call), targets, k)
  {
    hide SI.Inv, SelectLaunchPatchNumber;
    CallRefines(libs, d, call);
    SI.ApplyKeepsInv(LoadedState(d.stateFile), AsOp(libs, d, call));
  }

  lemma HoldsInitially(d: Disk, targets: seq<Bytes>)
    requires SI.Inv(LoadedState(d.stateFile)) && LoadedState(d.stateFile).installed == [] && d.artifacts == map[]
    requires 0 < |targets| <= U32_MAX
    ensures Holds(d, targets, 0)
  {
  }

  /**
    Chain reconstruction, for chains of any length: from an empty cache, whatever launches and reports come
    between the deliveries, every delivery succeeds and leaves exactly its target as the newest artifact.
   */
  lemma {:induction false} ChainRebuildsEveryTarget(
      libs: Libraries, key: string, targets: seq<Bytes>, ps: seq<Publication>, d: Disk, steps: seq<Step>)
    requires Publications(libs, key, targets, ps) && CollisionFree(libs, targets)
    requires SI.Inv(LoadedState(d.stateFile)) && LoadedState(d.stateFile).installed == [] && d.artifacts == map[]
    requires Harmless(steps)
    ensures var device := ChainRun(libs, key, targets[0], ps, d, steps);
            var k := device.delivered;
            && Holds(device.disk, targets, k)
            && (k < |ps| ==> Derived(libs, device.disk, ps[k].manifest, ps[k].payload, key, Some(targets[0])) == Ok(Some(targets[k + 1])))
  {
    hide Holds, DiskAfter, DiskAfterInstall, Derived, SI.Inv, LoadedState;
    if steps == [] {
      HoldsInitially(d, targets);
    } else {
      var front := steps[..|steps| - 1];
      ChainRebuildsEveryTarget(libs, key, targets, ps, d, front);
      var before := ChainRun(libs, key, targets[0], ps, d, front);
      match steps[|steps| - 1]
      case Other(call) => OtherCallHolds(libs, targets, before.disk, before.delivered, call);
      case Deliver =>
        if before.delivered < |ps| { DeliveryHolds(libs, key, targets, ps, before.disk, before.delivered); }
    }
    var device := ChainRun(libs, key, targets[0], ps, d, steps);
    if device.delivered < |ps| {
      NextDeliverySucceeds(libs, key, targets, ps, device.disk, device.delivered);
    }
  }

  /** And at no time are more than two artifacts on disk. */
  lemma AtMostTwoArtifacts(d: Disk, targets: seq<Bytes>, k: nat)
    requires Holds(d, targets, k)
    ensures |d.artifacts| <= MAX_RETAINED
    ensures k > 0 ==> k as u32 in d.artifacts && d.artifacts[k as u32] == targets[k]
  {
    var installed := LoadedState(d.stateFile).installed;
    var numbers := set i | 0 <= i < |installed| :: installed[i].patchNumber;
    assert d.artifacts.Keys <= numbers;
    assert |numbers| <= |installed| by { FewNumbers(installed); }
    SubsetSize(d.artifacts.Keys, numbers);
  }

  lemma {:induction false} FewNumbers(ps: seq<InstalledPatch>)
    ensures |set i | 0 <= i < |ps| :: ps[i].patchNumber| <= |ps|
  {
    var numbers := set i | 0 <= i < |ps| :: ps[i].patchNumber;
    if ps != [] {
      var front := ps[..|ps| - 1];
      FewNumbers(front);
      assert numbers == (set i | 0 <= i < |front| :: front[i].patchNumber) + {ps[|ps| - 1].patchNumber};
    }
  }

  lemma {:induction false} SubsetSize<T>(a: set<T>, b: set<T>)
    requires a <= b
    ensures |a| <= |b|
  {
    if x :| x in a { SubsetSize(a - {x}, b - {x}); }
  }
}
