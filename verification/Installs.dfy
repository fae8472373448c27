/** What an install leads to: the patch that was installed is the one launched next. */
module Installs {
  import opened Basics
  import opened UpdaterState
  import opened UpdaterDisk
  import DiskRuns
  import SI = StateInvariant

  lemma {:induction false} FindsTheEntry(ps: seq<InstalledPatch>, p: InstalledPatch)
    requires Distinct(ps) && p in ps
    ensures FindPatch(ps, p.patchNumber) == Some(p)
  {
    if ps[0] != p {
      var i :| 0 < i < |ps| && ps[i] == p;
      assert ps[1..][i - 1] == p;
      FindsTheEntry(ps[1..], p);
    }
  }

  /** What a successful install changes in the state besides the list of installed patches. */
  lemma InstallSets(s: State, release: string, entry: InstalledPatch)
    ensures var t := InstallState(s, release, entry);
            && t.pending == Some(entry.patchNumber) && t.bootAttempts == 0
            && t.releaseVersion == release && t.schemaVersion == 2
            && t.current == s.current && t.lastKnownGood == s.lastKnownGood && t.bad == s.bad && t.lastLaunch == s.lastLaunch
  {
  }

  /**
    After a successful install the next launch hands out that very patch, with the manifest's backend, and with an
    artifact exactly for a binary diff; unless its number is bad, in which case it does not.
   */
  lemma InstalledIsLaunchedNext(libs: Libraries, d: Disk, m: Manifest, payload: Bytes, key: string, baseline: Option<Bytes>)
    requires SI.Inv(LoadedState(d.stateFile)) && Installable(libs, d, m, payload, key, baseline)
    ensures m.backend.Known?
    ensures var s := LoadedState(d.stateFile);
            var t := LoadedState(DiskAfterInstall(libs, d, m, payload, key, baseline).stateFile);
            && t.pending == Some(m.patchNumber) && t.bootAttempts == 0 && t.releaseVersion == m.releaseVersion
            && t.current == s.current && t.lastKnownGood == s.lastKnownGood && t.bad == s.bad && t.lastLaunch == s.lastLaunch
            && (m.patchNumber !in s.bad ==>
                  LaunchedPatch(t) == Some(InstalledPatch(m.patchNumber, m.backend.backend, m.kind == BinaryDiffPayload)))
            && (m.patchNumber in s.bad ==> LaunchedPatch(t).None? || LaunchedPatch(t).value.patchNumber != m.patchNumber)
  {
    hide InstallState, Derived, DiskAfterInstall, LoadedState, SI.Inv, SelectLaunchPatchNumber, FindPatch, Distinct;
    InstallsIff(libs, d, m, payload, key, baseline);
    DiskRuns.InstallRefines(libs, d, m, payload, key, baseline);
    var s, entry := LoadedState(d.stateFile), Entry(m);
    var t := InstallState(s, m.releaseVersion, entry);
    InstallSets(s, m.releaseVersion, entry);
    SI.InvOrders(s);
    SI.InstallRetains(s, m.releaseVersion, entry);
    SI.InstallKeepsInv(s, m.releaseVersion, entry);
    SI.InvOrders(t);
    FindsTheEntry(t.installed, entry);
    SelectionPrefers(SettleLastLaunch(t));
  }
}
