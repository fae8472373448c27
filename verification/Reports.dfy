/**
  What a report about a launch does, and for how long: a failure condemns its patch for good, a success makes it the
  current one.
 */
module Reports {
  import opened Basics
  import opened UpdaterState
  import opened StateInvariant

  lemma FailureCondemns(s: State, n: u32, reason: string)
    ensures Condemned(s, MarkFailureState(s, n, reason), n)
    ensures MarkFailureState(s, n, reason).lastLaunch == Some(LastLaunch(n, Failed(reason)))
  {
    MarkPatchBadCondemns(s, n);
  }

  /**
    Once patch `n` is reported to have failed, it stays bad until the state file is lost: it is not current, not the
    last known good, and no call hands it out, whatever is launched, installed or reported later.
   */
  lemma FailureIsFinal(s: State, ops: seq<Op>, i: nat)
    requires Inv(s) && i < |ops| && ops[i].MarkFailure? && forall j | i < j < |ops| :: !ops[j].Reset?
    ensures var n := ops[i].patchNumber;
            && (forall k: nat | i < k <= |ops| ::
                  var t := Run(s, ops[..k]);
                  n in t.bad && t.lastKnownGood != Some(n) && (n > 0 ==> t.current != n))
            && (forall j | i < j < |ops| :: Returned(Run(s, ops[..j]), ops[j]) != Some(n))
  {
    hide Inv, Returned, Apply, MarkFailureState;
    var n, t := ops[i].patchNumber, Run(s, ops[..i + 1]);
    RunKeepsInv(s, ops[..i + 1]);
    RunStep(s, ops, i);
    ReportedIsBad(Run(s, ops[..i]), ops[i]);
    forall k: nat | i < k <= |ops|
      ensures n in Run(s, ops[..k]).bad && Run(s, ops[..k]).lastKnownGood != Some(n)
              && (n > 0 ==> Run(s, ops[..k]).current != n)
    {
      LaterRun(s, ops, i, k);
      BadIsFinal(t, ops[i + 1..k], n);
    }
    var later := ops[i + 1..];
    BadIsFinal(t, later, n);
    forall j | i < j < |ops| ensures Returned(Run(s, ops[..j]), ops[j]) != Some(n) {
      LaterRun(s, ops, i, j);
      assert later[..j - i - 1] == ops[i + 1..j] && later[j - i - 1] == ops[j];
    }
  }

  lemma ReportedIsBad(s: State, op: Op)
    requires op.MarkFailure?
    ensures op.patchNumber in Apply(s, op).bad
  {
    FailureCondemns(s, op.patchNumber, op.reason);
  }

  lemma LaterRun(s: State, ops: seq<Op>, i: nat, k: nat)
    requires i < k <= |ops|
    ensures Run(s, ops[..k]) == Run(Run(s, ops[..i + 1]), ops[i + 1..k])
  {
    hide Run;
    assert ops[..k] == ops[..i + 1] + ops[i + 1..k];
    RunJoins(s, ops[..i + 1], ops[i + 1..k]);
  }

  /**
    An accepted success report makes the launched patch current and last known good and forgets the pending one, so
    there is nothing left to get ready, and the next launch hands out the same patch if its files are there.
   */
  lemma SuccessSettles(s: State)
    requires Inv(s) && MarkSuccessError(s).None?
    ensures s.lastLaunch.Some?
    ensures var n, t := s.lastLaunch.value.patchNumber, MarkSuccessState(s);
            && t.current == n && t.lastKnownGood == Some(n) && t.pending == None && t.bootAttempts == 0
            && t.lastLaunch == Some(LastLaunch(n, Succeeded))
            && t.bad == s.bad && t.installed == s.installed
            && t.releaseVersion == s.releaseVersion && t.schemaVersion == s.schemaVersion
            && Returned(t, Ready) == None
            && Returned(t, Launch) == (if IsInstalled(s.installed, n) then Some(n) else None)
  {
    SuccessRefusals(s);
    SelectionPrefers(MarkSuccessState(s));
  }
}
