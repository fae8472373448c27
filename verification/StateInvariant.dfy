/**
  What every run of the updater keeps: the inductive invariant of the persisted state,
  what pruning retains, and the finality of the bad list.
 */
module StateInvariant {
  import opened Basics
  import opened UpdaterState

  /** One call on the updater. `Reset` is a launch of the app that finds `state.json` unreadable. */
  datatype Op =
    | Install(release: string, patch: InstalledPatch)
    | Launch
    | Ready
    | MarkSuccess
    | MarkFailure(patchNumber: u32, reason: string)
    | Reset

  function Apply(s: State, op: Op): State {
    match op
    case Install(release, patch) => InstallState(s, release, patch)
    case Launch => LaunchState(s)
    case Ready => s
    case MarkSuccess => MarkSuccessState(s)
    case MarkFailure(n, reason) => MarkFailureState(s, n, reason)
    case Reset => DEFAULT_STATE
  }

  function Run(s: State, ops: seq<Op>): State {
    if ops == [] then s else Apply(Run(s, ops[..|ops| - 1]), ops[|ops| - 1])
  }

  lemma RunStep(s: State, ops: seq<Op>, k: nat)
    requires k < |ops|
    ensures Run(s, ops[..k + 1]) == Apply(Run(s, ops[..k]), ops[k])
  {
    assert ops[..k + 1][..k] == ops[..k];
  }

  lemma {:induction false} RunJoins(s: State, a: seq<Op>, b: seq<Op>)
    ensures Run(s, a + b) == Run(Run(s, a), b)
  {
    hide Apply;
    if b == [] {
      assert a + b == a;
    } else {
      RunJoins(s, a, b[..|b| - 1]);
      assert (a + b)[..|a + b| - 1] == a + b[..|b| - 1];
    }
  }

  /** The patch a call hands to its caller, if any. */
  function Returned(s: State, op: Op): Option<u32> {
    var patch := if op.Launch? then LaunchedPatch(s) else if op.Ready? then ReadyPatch(s) else None;
    if patch.Some? then Some(patch.value.patchNumber) else None
  }

  ghost predicate Inv(s: State) {
    && s.schemaVersion >= STATE_SCHEMA_VERSION
    && s.current == (if s.lastKnownGood.Some? then s.lastKnownGood.value else 0)
    && (s.lastKnownGood.Some? ==> s.lastKnownGood.value !in s.bad)
    && (s.pending.Some? ==> IsInstalled(s.installed, s.pending.value))
    && s.bootAttempts < MAX_BOOT_ATTEMPTS
    && (AwaitsSuccess(s) ==> s.lastLaunch.value.patchNumber !in s.bad)
    && (s.bootAttempts > 0 ==>
          AwaitsSuccess(s) && SelectLaunchPatchNumber(s) == Some(s.lastLaunch.value.patchNumber))
    && StrictlySorted(s.installed)
    && |s.installed| <= MAX_RETAINED
  }

  /** A state file written before last-known-good and boot attempts existed. */
  predicate Older(s: State) {
    s.schemaVersion < STATE_SCHEMA_VERSION && s.lastKnownGood.None? && s.bootAttempts == 0
  }

  /** A fresh state satisfies the invariant, and an older file does after migration exactly when its own fields agree. */
  lemma InvInitially(s: State)
    ensures Inv(DEFAULT_STATE)
    ensures Migrate(s) == s.(schemaVersion := Migrate(s).schemaVersion, lastKnownGood := Migrate(s).lastKnownGood)
    ensures s.schemaVersion >= 2 ==> Migrate(s) == s
    ensures s.schemaVersion < 2 ==> Migrate(s).schemaVersion == 2
    ensures s.lastKnownGood.Some? ==> Migrate(s).lastKnownGood == s.lastKnownGood
    ensures Older(s) ==>
              (Inv(Migrate(s)) <==>
                 && (s.current > 0 ==> s.current !in s.bad)
                 && (AwaitsSuccess(s) ==> s.lastLaunch.value.patchNumber !in s.bad)
                 && (s.pending.Some? ==> IsInstalled(s.installed, s.pending.value))
                 && StrictlySorted(s.installed) && |s.installed| <= MAX_RETAINED)
  {
  }

  // ---------------------------------------------------------------- retention

  /** One round of the prune loop drops exactly one entry. */
  lemma DropAt(ps: seq<InstalledPatch>, i: nat)
    requires i < |ps| && StrictlySorted(ps)
    ensures var rest := ps[..i] + ps[i + 1..];
            StrictlySorted(rest) && forall p :: p in rest <==> p in ps && p != ps[i]
  {
    var rest := ps[..i] + ps[i + 1..];
    forall p ensures p in rest <==> p in ps && p != ps[i] {
      if p in ps && p != ps[i] {
        var j :| 0 <= j < |ps| && ps[j] == p;
        assert p == rest[if j < i then j else j - 1];
      }
    }
  }

  lemma {:induction false} PruneBounds(s: State, ps: seq<InstalledPatch>, artifacts: map<u32, Bytes>)
    requires StrictlySorted(ps)
    ensures var r := Prune(s, ps, artifacts).0;
            && StrictlySorted(r)
            && (forall p | p in r :: p in ps)
            && (|ps| <= MAX_RETAINED ==> r == ps)
            && (|ps| >= MAX_RETAINED ==> |r| >= MAX_RETAINED)
            && (|r| <= MAX_RETAINED || forall p | p in r :: Protected(s, p.patchNumber))
    decreases |ps|
  {
    var i := FirstUnprotected(s, ps);
    if |ps| > MAX_RETAINED && i < |ps| {
      DropAt(ps, i);
      PruneBounds(s, ps[..i] + ps[i + 1..], artifacts - {ps[i].patchNumber});
    }
  }

  lemma {:induction false} PruneKeepsProtected(s: State, ps: seq<InstalledPatch>, artifacts: map<u32, Bytes>, p: InstalledPatch)
    requires StrictlySorted(ps) && p in ps && Protected(s, p.patchNumber)
    ensures p in Prune(s, ps, artifacts).0
    decreases |ps|
  {
    var i := FirstUnprotected(s, ps);
    if |ps| > MAX_RETAINED && i < |ps| {
      DropAt(ps, i);
      PruneKeepsProtected(s, ps[..i] + ps[i + 1..], artifacts - {ps[i].patchNumber}, p);
    }
  }

  lemma {:induction false} PruneDropsLowestFirst(s: State, ps: seq<InstalledPatch>, artifacts: map<u32, Bytes>, p: InstalledPatch, q: InstalledPatch)
    requires StrictlySorted(ps) && p in ps && q in ps && !Protected(s, q.patchNumber)
    requires p !in Prune(s, ps, artifacts).0 && q in Prune(s, ps, artifacts).0
    ensures p.patchNumber < q.patchNumber
    decreases |ps|
  {
    var i := FirstUnprotected(s, ps);
    DropAt(ps, i);
    var rest := ps[..i] + ps[i + 1..];
    PruneBounds(s, rest, artifacts - {ps[i].patchNumber});
    if p == ps[i] {
      var j :| 0 <= j < |ps| && ps[j] == q;
    } else {
      PruneDropsLowestFirst(s, rest, artifacts - {ps[i].patchNumber}, p, q);
    }
  }

  /**
    What the prune loop leaves of a list without duplicates: only unprotected entries go, the
    lowest-numbered first, never below two entries, and nothing unprotected stays beyond two.
   */
  lemma PruneRetains(s: State, ps: seq<InstalledPatch>, artifacts: map<u32, Bytes>)
    requires StrictlySorted(ps)
    ensures var r := Prune(s, ps, artifacts).0;
            && StrictlySorted(r)
            && (forall p | p in r :: p in ps)
            && (forall p | p in ps && Protected(s, p.patchNumber) :: p in r)
            && (forall p, q | p in ps && p !in r && q in r && !Protected(s, q.patchNumber) :: p.patchNumber < q.patchNumber)
            && (|ps| <= MAX_RETAINED ==> r == ps)
            && (|ps| >= MAX_RETAINED ==> |r| >= MAX_RETAINED)
            && (|r| <= MAX_RETAINED || forall p | p in r :: Protected(s, p.patchNumber))
  {
    var r := Prune(s, ps, artifacts).0;
    PruneBounds(s, ps, artifacts);
    forall p | p in ps && Protected(s, p.patchNumber) ensures p in r {
      PruneKeepsProtected(s, ps, artifacts, p);
    }
    forall p, q | p in ps && p !in r && q in r && !Protected(s, q.patchNumber) ensures p.patchNumber < q.patchNumber {
      PruneDropsLowestFirst(s, ps, artifacts, p, q);
    }
  }

  /** The state does not depend on which directories exist. */
  lemma {:induction false} PruneIgnoresArtifacts(s: State, ps: seq<InstalledPatch>, a: map<u32, Bytes>, b: map<u32, Bytes>)
    ensures Prune(s, ps, a).0 == Prune(s, ps, b).0
    decreases |ps|
  {
    var i := FirstUnprotected(s, ps);
    if |ps| > MAX_RETAINED && i < |ps| {
      PruneIgnoresArtifacts(s, ps[..i] + ps[i + 1..], a - {ps[i].patchNumber}, b - {ps[i].patchNumber});
    }
  }

  /** Adding the new entry orders the list, which then holds exactly the old entries and the new one. */
  lemma AddPendingInstalls(s: State, release: string, patch: InstalledPatch)
    requires Distinct(s.installed)
    ensures var t := AddPending(s, release, patch);
            && StrictlySorted(t.installed)
            && forall p :: p in t.installed <==> p == patch || (p in s.installed && p.patchNumber != patch.patchNumber)
  {
    var kept := Without(s.installed, patch.patchNumber);
    var all := kept + [patch];
    WithoutKeepsDistinct(s.installed, patch.patchNumber);
    forall i, j | 0 <= i < j < |all| ensures all[i].patchNumber != all[j].patchNumber {
      if j == |kept| { assert all[i] in kept; }
    }
    SortOrders(all);
    SameMembers(SortByPatch(all), all);
  }

  /** At most three numbers are protected, and at most two when current and last known good coincide. */
  lemma SomeUnprotected(s: State, ps: seq<InstalledPatch>)
    requires StrictlySorted(ps) && |ps| > MAX_RETAINED
    requires |ps| > 3 || s.lastKnownGood.None? || s.lastKnownGood == Some(s.current)
    ensures exists p | p in ps :: !Protected(s, p.patchNumber)
  {
    assert ps[0] in ps && ps[1] in ps && ps[2] in ps;
    assert |ps| > 3 ==> ps[3] in ps;
  }

  /** What an install never drops, besides the new patch. */
  predicate Kept(s: State, n: u32) {
    n == s.current || s.lastKnownGood == Some(n)
  }

  /** Retention from any duplicate-free state: the new, current and last-known-good entries stay; at most three remain. */
  lemma InstallRetains(s: State, release: string, patch: InstalledPatch)
    requires Distinct(s.installed)
    ensures var r := InstallState(s, release, patch).installed;
            && StrictlySorted(r)
            && patch in r
            && (forall p | p in r && p != patch :: p in s.installed && p.patchNumber != patch.patchNumber)
            && (forall p | p in s.installed && p.patchNumber != patch.patchNumber && Kept(s, p.patchNumber) :: p in r)
            && |r| <= 3
            && (s.lastKnownGood.None? || s.lastKnownGood == Some(s.current) ==> |r| <= 2)
  {
    AddPendingInstalls(s, release, patch);
    var t := AddPending(s, release, patch);
    PruneRetains(t, t.installed, map[]);
    assert Protected(t, patch.patchNumber);
    var r := Prune(t, t.installed, map[]).0;
    if |r| > MAX_RETAINED && (|r| > 3 || s.lastKnownGood.None? || s.lastKnownGood == Some(s.current)) {
      SomeUnprotected(t, r);
    }
  }

  /** `q` outlasts `p` when `patch` is installed. */
  predicate Outlasts(s: State, patch: InstalledPatch, p: InstalledPatch, q: InstalledPatch) {
    q != p && q.patchNumber != patch.patchNumber && (Kept(s, q.patchNumber) || p.patchNumber < q.patchNumber)
  }

  lemma DroppedIsOutlasted(s: State, release: string, patch: InstalledPatch, p: InstalledPatch)
    requires Inv(s) && p in s.installed && p.patchNumber != patch.patchNumber
    requires p !in InstallState(s, release, patch).installed
    ensures !Kept(s, p.patchNumber) && exists q | q in s.installed :: Outlasts(s, patch, p, q)
  {
    var t := AddPending(s, release, patch);
    var r := InstallState(s, release, patch).installed;
    AddPendingInstalls(s, release, patch);
    PruneRetains(t, t.installed, map[]);
    InstallRetains(s, release, patch);
    var q := if r[0] != patch then r[0] else r[1];
    assert q in r && (Protected(t, q.patchNumber) <==> Kept(s, q.patchNumber));
    assert Outlasts(s, patch, p, q);
  }

  lemma SurvivorIsNotOutlasted(s: State, release: string, patch: InstalledPatch, p: InstalledPatch, q: InstalledPatch)
    requires Inv(s) && p in s.installed && p.patchNumber != patch.patchNumber && !Kept(s, p.patchNumber)
    requires p in InstallState(s, release, patch).installed
    requires q in s.installed && q != p && q.patchNumber != patch.patchNumber
    ensures !Outlasts(s, patch, p, q)
  {
    hide Inv, Prune, SortByPatch, Without;
    InvOrders(s);
    var t := AddPending(s, release, patch);
    var r := InstallState(s, release, patch).installed;
    AddPendingInstalls(s, release, patch);
    PruneRetains(t, t.installed, map[]);
    InstallRetains(s, release, patch);
    if q in r {
      ThreeDistinct(r, p, q, patch);
    }
    assert !Protected(t, p.patchNumber);
    assert Kept(s, q.patchNumber) ==> Protected(t, q.patchNumber);
    var i, j :| 0 <= i < |s.installed| && 0 <= j < |s.installed| && s.installed[i] == p && s.installed[j] == q;
  }

  /**
    Exactly which entry an install drops: one that is neither current nor last known good, when another
    entry than the new one stays behind that is kept or has a higher number.
   */
  lemma InstallDropsIff(s: State, release: string, patch: InstalledPatch, p: InstalledPatch)
    requires Inv(s) && p in s.installed && p.patchNumber != patch.patchNumber
    ensures p !in InstallState(s, release, patch).installed <==>
            !Kept(s, p.patchNumber) && exists q | q in s.installed :: Outlasts(s, patch, p, q)
  {
    if p !in InstallState(s, release, patch).installed {
      DroppedIsOutlasted(s, release, patch, p);
    } else if !Kept(s, p.patchNumber) {
      forall q | q in s.installed && q != p && q.patchNumber != patch.patchNumber ensures !Outlasts(s, patch, p, q) {
        SurvivorIsNotOutlasted(s, release, patch, p, q);
      }
    }
  }

  lemma ThreeDistinct(r: seq<InstalledPatch>, a: InstalledPatch, b: InstalledPatch, c: InstalledPatch)
    requires a in r && b in r && c in r && a != b && b != c && a != c
    ensures |r| >= 3
  {
    var i, j, k :| 0 <= i < |r| && 0 <= j < |r| && 0 <= k < |r| && r[i] == a && r[j] == b && r[k] == c;
  }

  // ---------------------------------------------------------------- the invariant

  lemma InstallKeepsInv(s: State, release: string, patch: InstalledPatch)
    requires Inv(s)
    ensures Inv(InstallState(s, release, patch))
  {
    InstallRetains(s, release, patch);
  }

  lemma MarkPatchBadKeepsInv(s: State, n: u32, last: Option<LastLaunch>)
    requires Inv(s) && (last.Some? ==> !last.value.status.PendingSuccess?)
    ensures Inv(MarkPatchBad(s, n).(lastLaunch := last))
  {
  }

  /** Which patch is selected depends only on the candidates, the bad list and what is installed. */
  lemma SelectionIgnoresLaunchRecord(s: State, attempts: u32, last: Option<LastLaunch>)
    ensures SelectLaunchPatchNumber(s.(bootAttempts := attempts, lastLaunch := last)) == SelectLaunchPatchNumber(s)
  {
    var candidates := AsSeq(s.pending) + (if s.current > 0 then [s.current] else []) + AsSeq(s.lastKnownGood);
    FirstIgnoresLaunchRecord(s, attempts, last, candidates);
  }

  lemma {:induction false} FirstIgnoresLaunchRecord(s: State, attempts: u32, last: Option<LastLaunch>, candidates: seq<u32>)
    ensures FirstSelectable(s.(bootAttempts := attempts, lastLaunch := last), candidates) == FirstSelectable(s, candidates)
  {
    if candidates != [] {
      FirstIgnoresLaunchRecord(s, attempts, last, candidates[1..]);
    }
  }

  lemma LaunchKeepsInv(s: State)
    requires Inv(s)
    ensures Inv(LaunchState(s))
  {
    var t := SettleLastLaunch(s);
    if Condemns(s) {
      MarkPatchBadKeepsInv(s, s.lastLaunch.value.patchNumber, None);
    } else {
      SelectionIgnoresLaunchRecord(s, s.bootAttempts, t.lastLaunch);
    }
    var u := LaunchState(s);
    SelectionIgnoresLaunchRecord(t, u.bootAttempts, u.lastLaunch);
  }

  lemma ApplyKeepsInv(s: State, op: Op)
    requires Inv(s)
    ensures Inv(Apply(s, op))
  {
    match op
    case Install(release, patch) => InstallKeepsInv(s, release, patch);
    case Launch => LaunchKeepsInv(s);
    case MarkFailure(n, reason) => MarkPatchBadKeepsInv(s, n, Some(LastLaunch(n, Failed(reason))));
    case _ =>
  }

  /** The invariant holds after every run. */
  lemma {:induction false} RunKeepsInv(s: State, ops: seq<Op>)
    requires Inv(s)
    ensures Inv(Run(s, ops))
  {
    if ops != [] {
      RunKeepsInv(s, ops[..|ops| - 1]);
      ApplyKeepsInv(Run(s, ops[..|ops| - 1]), ops[|ops| - 1]);
    }
  }

  /** A pending patch is ready unless it is bad: its files are always there. */
  lemma ReadyIffPendingAndNotBad(s: State)
    requires Inv(s)
    ensures Returned(s, Ready) == if s.pending.Some? && s.pending.value !in s.bad then s.pending else None
  {
  }

  lemma InvOrders(s: State)
    requires Inv(s)
    ensures StrictlySorted(s.installed) && Distinct(s.installed) && |s.installed| <= MAX_RETAINED
  {
  }

  // ---------------------------------------------------------------- bad is final

  lemma BadStaysBadOnce(s: State, op: Op, n: u32)
    requires n in s.bad && !op.Reset?
    ensures n in Apply(s, op).bad
    ensures Returned(s, op) != Some(n)
  {
  }

  lemma {:induction false} BadListOnlyGrows(s: State, ops: seq<Op>, n: u32)
    requires n in s.bad
    requires forall op | op in ops :: !op.Reset?
    ensures n in Run(s, ops).bad
  {
    if ops != [] {
      BadListOnlyGrows(s, ops[..|ops| - 1], n);
      BadStaysBadOnce(Run(s, ops[..|ops| - 1]), ops[|ops| - 1], n);
    }
  }

  /**
    Once a patch is in the bad list it stays there until the state file is lost, no call hands it
    out again, and it never becomes the current or the last-known-good patch, whatever is installed.
   */
  lemma BadIsFinal(s: State, ops: seq<Op>, n: u32)
    requires Inv(s) && n in s.bad
    requires forall op | op in ops :: !op.Reset?
    ensures n in Run(s, ops).bad
    ensures Run(s, ops).lastKnownGood != Some(n) && (n > 0 ==> Run(s, ops).current != n)
    ensures forall i | 0 <= i < |ops| :: Returned(Run(s, ops[..i]), ops[i]) != Some(n)
  {
    RunKeepsInv(s, ops);
    BadListOnlyGrows(s, ops, n);
    forall i | 0 <= i < |ops| ensures Returned(Run(s, ops[..i]), ops[i]) != Some(n) {
      BadListOnlyGrows(s, ops[..i], n);
      BadStaysBadOnce(Run(s, ops[..i]), ops[i], n);
    }
  }
}
