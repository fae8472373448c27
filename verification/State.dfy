/**
  The persisted updater state (crates/fcb_core/src/state.rs) and what each operation
  does to it. The functions here are the specification that the imperative
  `Updater` class is proved against; the theorems about whole runs use them too.
 */
module UpdaterState {
  import opened Basics

  const STATE_SCHEMA_VERSION: u32 := 2
  const MAX_BOOT_ATTEMPTS: u32 := 3
  const MAX_RETAINED: nat := 2

  /** The status string of a launch: "pending_success", "success" or "failure:<reason>". */
  datatype LaunchStatus = PendingSuccess | Succeeded | Failed(reason: string)

  datatype LastLaunch = LastLaunch(patchNumber: u32, status: LaunchStatus)

  datatype Backend = Bytecode | SnapshotReplace

  /** `artifact` says whether the entry names a `patches/<n>/libapp.so`. */
  datatype InstalledPatch = InstalledPatch(patchNumber: u32, backend: Backend, artifact: bool)

  datatype State = State(
    schemaVersion: u32,
    releaseVersion: string,
    current: u32,
    pending: Option<u32>,
    lastKnownGood: Option<u32>,
    bootAttempts: u32,
    bad: seq<u32>,
    lastLaunch: Option<LastLaunch>,
    installed: seq<InstalledPatch>)

  datatype RollbackEvent =
    | StateReset
    | CrashRollback(patchNumber: u32, bootAttempts: u32, lastKnownGood: Option<u32>)

  const DEFAULT_STATE: State := State(STATE_SCHEMA_VERSION, "", 0, None, None, 0, [], None, [])

  function Migrate(s: State): State {
    if s.schemaVersion < STATE_SCHEMA_VERSION then
      s.(lastKnownGood := if s.lastKnownGood.None? && s.current > 0 then Some(s.current) else s.lastKnownGood,
         schemaVersion := STATE_SCHEMA_VERSION)
    else
      s
  }

  // ---------------------------------------------------------------- the installed list

  predicate IsInstalled(ps: seq<InstalledPatch>, n: u32) {
    exists p | p in ps :: p.patchNumber == n
  }

  /** The first entry for `n`, as `iter().find(..)` returns it. */
  function FindPatch(ps: seq<InstalledPatch>, n: u32): (r: Option<InstalledPatch>)
    ensures r.Some? <==> IsInstalled(ps, n)
    ensures r.Some? ==> r.value in ps && r.value.patchNumber == n
  {
    if ps == [] then None
    else if ps[0].patchNumber == n then Some(ps[0])
    else
      assert ps == [ps[0]] + ps[1..];
      FindPatch(ps[1..], n)
  }

  /** `retain(|p| p.patch_number != n)` */
  function Without(ps: seq<InstalledPatch>, n: u32): (r: seq<InstalledPatch>)
    ensures forall p :: p in r <==> p in ps && p.patchNumber != n
    ensures |r| <= |ps|
  {
    if ps == [] then []
    else
      assert ps == [ps[0]] + ps[1..];
      (if ps[0].patchNumber != n then [ps[0]] else []) + Without(ps[1..], n)
  }

  lemma ConsKeepsOrder(p: InstalledPatch, ps: seq<InstalledPatch>)
    requires StrictlySorted(ps) && forall q | q in ps :: p.patchNumber < q.patchNumber
    ensures StrictlySorted([p] + ps)
  {
    assert forall i | 0 < i < |ps| + 1 :: ([p] + ps)[i] == ps[i - 1];
  }

  ghost predicate StrictlySorted(ps: seq<InstalledPatch>) {
    forall i, j | 0 <= i < j < |ps| :: ps[i].patchNumber < ps[j].patchNumber
  }

  ghost predicate Distinct(ps: seq<InstalledPatch>) {
    forall i, j | 0 <= i < j < |ps| :: ps[i].patchNumber != ps[j].patchNumber
  }

  lemma {:induction false} WithoutKeepsDistinct(ps: seq<InstalledPatch>, n: u32)
    requires Distinct(ps)
    ensures Distinct(Without(ps, n))
  {
    if ps != [] {
      WithoutKeepsDistinct(ps[1..], n);
      var rest := Without(ps[1..], n);
      forall j | 0 <= j < |rest| ensures rest[j].patchNumber != ps[0].patchNumber {
        assert rest[j] in ps[1..];
      }
    }
  }

  /** Stable insertion: `x` goes after the entries whose number is at most its own. */
  function InsertByPatch(x: InstalledPatch, ps: seq<InstalledPatch>): (r: seq<InstalledPatch>)
    ensures multiset(r) == multiset(ps) + multiset{x}
  {
    if ps == [] || x.patchNumber < ps[0].patchNumber then
      [x] + ps
    else
      assert ps == [ps[0]] + ps[1..];
      [ps[0]] + InsertByPatch(x, ps[1..])
  }

  /** `sort_by_key(|p| p.patch_number)`, a stable sort. */
  function SortByPatch(ps: seq<InstalledPatch>): (r: seq<InstalledPatch>)
    ensures multiset(r) == multiset(ps)
  {
    if ps == [] then []
    else
      assert ps == ps[..|ps| - 1] + [ps[|ps| - 1]];
      InsertByPatch(ps[|ps| - 1], SortByPatch(ps[..|ps| - 1]))
  }

  lemma SameMembers(ps: seq<InstalledPatch>, qs: seq<InstalledPatch>)
    requires multiset(ps) == multiset(qs)
    ensures |ps| == |qs|
    ensures forall p :: p in ps <==> p in qs
  {
    assert |ps| == |multiset(ps)| && |qs| == |multiset(qs)|;
    forall p ensures p in ps <==> p in qs {
      assert p in ps <==> p in multiset(ps);
      assert p in qs <==> p in multiset(qs);
    }
  }

  lemma {:induction false} InsertKeepsOrder(x: InstalledPatch, ps: seq<InstalledPatch>)
    requires StrictlySorted(ps) && !IsInstalled(ps, x.patchNumber)
    ensures StrictlySorted(InsertByPatch(x, ps))
  {
    if ps == [] || x.patchNumber < ps[0].patchNumber {
      ConsKeepsOrder(x, ps);
    } else {
      assert ps == [ps[0]] + ps[1..] && ps[0] in ps;
      InsertKeepsOrder(x, ps[1..]);
      SameMembers(InsertByPatch(x, ps[1..]), ps[1..] + [x]);
      forall p | p in ps[1..] ensures ps[0].patchNumber < p.patchNumber {
        var i :| 1 <= i < |ps| && ps[i] == p;
      }
      ConsKeepsOrder(ps[0], InsertByPatch(x, ps[1..]));
    }
  }

  lemma {:induction false} SortOrders(ps: seq<InstalledPatch>)
    requires Distinct(ps)
    ensures StrictlySorted(SortByPatch(ps))
  {
    if ps != [] {
      var front := ps[..|ps| - 1];
      SortOrders(front);
      SameMembers(SortByPatch(front), front);
      InsertKeepsOrder(ps[|ps| - 1], SortByPatch(front));
    }
  }

  // ---------------------------------------------------------------- pruning

  predicate Protected(s: State, n: u32) {
    n == s.current || s.pending == Some(n) || s.lastKnownGood == Some(n)
  }

  /** `position(..)` of the first entry the prune loop may drop; the length if there is none. */
  function FirstUnprotected(s: State, ps: seq<InstalledPatch>): (i: nat)
    ensures i <= |ps|
    ensures forall j | 0 <= j < i :: Protected(s, ps[j].patchNumber)
    ensures i < |ps| ==> !Protected(s, ps[i].patchNumber)
  {
    if ps == [] || !Protected(s, ps[0].patchNumber) then 0
    else
      var i := FirstUnprotected(s, ps[1..]);
      assert forall j | 1 <= j <= i :: ps[j] == ps[1..][j - 1];
      1 + i
  }

  /** The whole prune loop, with the patch directories it deletes. */
  function Prune(s: State, ps: seq<InstalledPatch>, artifacts: map<u32, Bytes>): (r: (seq<InstalledPatch>, map<u32, Bytes>))
    decreases |ps|
  {
    var i := FirstUnprotected(s, ps);
    if |ps| <= MAX_RETAINED || i == |ps| then (ps, artifacts)
    else Prune(s, ps[..i] + ps[i + 1..], artifacts - {ps[i].patchNumber})
  }

  // ---------------------------------------------------------------- install

  /** The state an install builds before it prunes. */
  function AddPending(s: State, release: string, patch: InstalledPatch): State {
    s.(schemaVersion := STATE_SCHEMA_VERSION,
       releaseVersion := release,
       pending := Some(patch.patchNumber),
       bootAttempts := 0,
       installed := SortByPatch(Without(s.installed, patch.patchNumber) + [patch]))
  }

  function InstallState(s: State, release: string, patch: InstalledPatch): State {
    var t := AddPending(s, release, patch);
    t.(installed := Prune(t, t.installed, map[]).0)
  }

  // ---------------------------------------------------------------- launch

  function MarkPatchBad(s: State, n: u32): State {
    s.(bad := if n in s.bad then s.bad else s.bad + [n],
       current :=
         if s.current != n then s.current
         else if s.lastKnownGood.Some? && s.lastKnownGood.value != n then s.lastKnownGood.value
         else 0,
       pending := if s.pending == Some(n) then None else s.pending,
       lastKnownGood := if s.lastKnownGood == Some(n) then None else s.lastKnownGood,
       bootAttempts := 0)
  }

  /** `after` is `before` with patch `n` condemned: it leaves every place of honour, and nothing else does. */
  ghost predicate Condemned(before: State, after: State, n: u32) {
    && (forall x :: x in after.bad <==> x in before.bad || x == n)
    && before.bad <= after.bad && |after.bad| <= |before.bad| + 1
    && (before.pending != Some(n) ==> after.pending == before.pending) && after.pending != Some(n)
    && (before.pending == Some(n) ==> after.pending == None)
    && (before.lastKnownGood != Some(n) ==> after.lastKnownGood == before.lastKnownGood)
    && (before.lastKnownGood == Some(n) ==> after.lastKnownGood == None)
    && (before.current != n ==> after.current == before.current)
    && (before.current == n ==>
          after.current == match after.lastKnownGood case Some(good) => good case None => 0)
    && after.bootAttempts == 0
    && after.installed == before.installed
    && after.releaseVersion == before.releaseVersion && after.schemaVersion == before.schemaVersion
  }

  lemma MarkPatchBadCondemns(s: State, n: u32)
    ensures Condemned(s, MarkPatchBad(s, n), n) && MarkPatchBad(s, n).lastLaunch == s.lastLaunch
  {
  }

  predicate Selectable(s: State, n: u32) {
    n !in s.bad && IsInstalled(s.installed, n)
  }

  function AsSeq<T>(o: Option<T>): seq<T> {
    if o.Some? then [o.value] else []
  }

  function FirstSelectable(s: State, candidates: seq<u32>): (r: Option<u32>)
    ensures r.Some? ==> r.value in candidates && Selectable(s, r.value)
  {
    if candidates == [] then None
    else if Selectable(s, candidates[0]) then Some(candidates[0])
    else FirstSelectable(s, candidates[1..])
  }

  function SelectLaunchPatchNumber(s: State): (r: Option<u32>)
    ensures r.Some? ==> Selectable(s, r.value)
  {
    FirstSelectable(s,
                    AsSeq(s.pending) + (if s.current > 0 then [s.current] else []) + AsSeq(s.lastKnownGood))
  }

  lemma {:induction false} FirstOfConcat(s: State, a: seq<u32>, b: seq<u32>)
    ensures FirstSelectable(s, a + b) == (if FirstSelectable(s, a).Some? then FirstSelectable(s, a) else FirstSelectable(s, b))
  {
    if a == [] {
      assert a + b == b;
    } else {
      assert (a + b)[1..] == a[1..] + b;
      FirstOfConcat(s, a[1..], b);
    }
  }

  /** The pending patch is preferred, then the current one, then the last known good; none means that none of them will do. */
  lemma SelectionPrefers(s: State)
    ensures var r := SelectLaunchPatchNumber(s);
            if s.pending.Some? && Selectable(s, s.pending.value) then r == s.pending
            else if s.current > 0 && Selectable(s, s.current) then r == Some(s.current)
            else if s.lastKnownGood.Some? && Selectable(s, s.lastKnownGood.value) then r == s.lastKnownGood
            else r == None
  {
    var front := AsSeq(s.pending);
    var middle := if s.current > 0 then [s.current] else [];
    var back := AsSeq(s.lastKnownGood);
    FirstOfConcat(s, front + middle, back);
    FirstOfConcat(s, front, middle);
    assert forall n: u32 :: FirstSelectable(s, [n]) == (if Selectable(s, n) then Some(n) else None);
  }

  predicate AwaitsSuccess(s: State) {
    s.lastLaunch.Some? && s.lastLaunch.value.status.PendingSuccess?
  }

  /** A launch that is still `pending_success` has crashed: it counts, and the third one condemns the patch. */
  predicate Condemns(s: State) {
    AwaitsSuccess(s) && SaturatingIncrement(s.bootAttempts) >= MAX_BOOT_ATTEMPTS
  }

  function SettleLastLaunch(s: State): State {
    if Condemns(s) then MarkPatchBad(s, s.lastLaunch.value.patchNumber).(lastLaunch := None)
    else if AwaitsSuccess(s) then s.(lastLaunch := None)
    else s
  }

  function LaunchEvents(s: State): seq<RollbackEvent> {
    if Condemns(s) then
      [CrashRollback(s.lastLaunch.value.patchNumber, SaturatingIncrement(s.bootAttempts), s.lastKnownGood)]
    else []
  }

  function LaunchedPatch(s: State): Option<InstalledPatch> {
    var t := SettleLastLaunch(s);
    match SelectLaunchPatchNumber(t)
    case None => None
    case Some(n) => FindPatch(t.installed, n)
  }

  function LaunchState(s: State): State {
    var t := SettleLastLaunch(s);
    match SelectLaunchPatchNumber(t)
    case None => t
    case Some(n) =>
      t.(bootAttempts := SaturatingIncrement(t.bootAttempts), lastLaunch := Some(LastLaunch(n, PendingSuccess)))
  }

  function ReadyPatch(s: State): Option<InstalledPatch> {
    if s.pending.None? || s.pending.value in s.bad then None
    else FindPatch(s.installed, s.pending.value)
  }

  // ---------------------------------------------------------------- reports

  datatype SuccessError = NoLastLaunch | BadPatch | FailedLaunch

  function MarkSuccessError(s: State): Option<SuccessError> {
    if s.lastLaunch.None? then Some(NoLastLaunch)
    else if s.lastLaunch.value.patchNumber in s.bad then Some(BadPatch)
    else if s.lastLaunch.value.status.Failed? then Some(FailedLaunch)
    else None
  }

  function MarkSuccessState(s: State): State {
    if MarkSuccessError(s).Some? then s
    else
      var n := s.lastLaunch.value.patchNumber;
      s.(current := n,
         lastKnownGood := Some(n),
         pending := None,
         bootAttempts := 0,
         lastLaunch := Some(LastLaunch(n, Succeeded)))
  }

  function MarkFailureState(s: State, n: u32, reason: string): State {
    MarkPatchBad(s, n).(lastLaunch := Some(LastLaunch(n, Failed(reason))))
  }

  /** A report is refused without a launch, for a bad patch, and for a launch reported as failed; otherwise it is accepted. */
  lemma SuccessRefusals(s: State)
    ensures MarkSuccessError(s) == Some(NoLastLaunch) <==> s.lastLaunch == None
    ensures MarkSuccessError(s) == Some(BadPatch) <==> s.lastLaunch.Some? && s.lastLaunch.value.patchNumber in s.bad
    ensures MarkSuccessError(s) == Some(FailedLaunch) <==>
            s.lastLaunch.Some? && s.lastLaunch.value.patchNumber !in s.bad && s.lastLaunch.value.status.Failed?
    ensures MarkSuccessError(s).Some? ==> MarkSuccessState(s) == s
  {
  }
}
