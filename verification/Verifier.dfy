/**
  The two-pass bytecode verifier (crates/fcb_core/src/bytecode.rs, `validate_bytecode`): what it computes,
  the declarative rules it decides, and the loops.
 */
module Verifier {
  import opened Basics
  import opened Text
  import opened Bytecode

  // ---------------------------------------------------------------- instructions

  function ReadU16(code: Bytes, at: nat): nat
    requires at + 2 <= |code|
  {
    code[at] as int * 256 + code[at + 1] as int
  }

  predicate OpAt(code: Bytes, pos: nat) {
    pos < |code| && FromByte(code[pos]).Some?
  }

  function Op(code: Bytes, pos: nat): OpCode
    requires OpAt(code, pos)
  {
    FromByte(code[pos]).value
  }

  /** The offset after the instruction at `pos`. */
  function Next(code: Bytes, pos: nat): (n: nat)
    requires OpAt(code, pos)
    ensures pos < n
  {
    pos + 1 + OperandLen(Op(code, pos))
  }

  /** A known opcode with all its operand bytes. */
  predicate Complete(code: Bytes, pos: nat) {
    OpAt(code, pos) && Next(code, pos) <= |code|
  }

  predicate StringAt(f: Function, i: nat) {
    i < |f.constants| && f.constants[i].String?
  }

  predicate NamesAString(op: OpCode) {
    op.GetField? || op.SetField? || op.IsType? || op.AsType? || op.CallStatic? || op.CallDynamic?
    || op.CallOriginal? || op.MakeClosure? || op.NewObject?
  }

  predicate PassesNamedArguments(op: OpCode) {
    op.CallDynamic? || op.CallOriginal? || op.NewObject?
  }

  /** Every index an instruction uses exists and has the right kind, and no call has more named than actual arguments. */
  predicate OperandsOk(f: Function, pos: nat)
    requires Complete(f.code, pos)
  {
    var op, at := Op(f.code, pos), pos + 1;
    if op.LoadConst? then ReadU16(f.code, at) < |f.constants|
    else if op.LoadArg? then f.code[at] < f.paramCount
    else if op.LoadLocal? || op.StoreLocal? then f.code[at] < f.localCount
    else if op.CallClosure? then
      var metadata := ReadU16(f.code, at);
      metadata != 0 ==>
        && StringAt(f, metadata - 1)
        && StartsWith(f.constants[metadata - 1].s, NAMED_MARKER)
        && CountNamedArguments(f.constants[metadata - 1].s, true) <= f.code[at + 2] as int
    else if NamesAString(op) then
      var i := ReadU16(f.code, at);
      && StringAt(f, i)
      && (PassesNamedArguments(op) ==> CountNamedArguments(f.constants[i].s, false) <= f.code[at + 2] as int)
    else true
  }

  predicate Branches(op: OpCode) {
    op.Jump? || op.JumpIfFalse? || op.JumpIfTrue? || op.TryBegin? || op.TryFinally?
  }

  predicate Guards(op: OpCode) {
    op.TryBegin? || op.TryFinally?
  }

  /** Targets are instruction starts, and a handler lies strictly between its instruction and its end. */
  predicate TargetsOk(f: Function, pos: nat, starts: set<nat>)
    requires Complete(f.code, pos)
  {
    var op, at := Op(f.code, pos), pos + 1;
    Branches(op) ==>
      var target := ReadU16(f.code, at);
      && target < |f.code| && target in starts
      && (Guards(op) ==>
            var end := ReadU16(f.code, at + 2);
            end < |f.code| && end in starts && pos < target < end)
  }

  // ---------------------------------------------------------------- what the two passes compute

  function Starts(code: Bytes, pos: nat): set<nat>
    decreases |code| - pos
  {
    if Complete(code, pos) then {pos} + Starts(code, Next(code, pos)) else {}
  }

  predicate FirstPass(f: Function, pos: nat)
    decreases |f.code| - pos
  {
    pos >= |f.code| || (Complete(f.code, pos) && OperandsOk(f, pos) && FirstPass(f, Next(f.code, pos)))
  }

  predicate SecondPass(f: Function, pos: nat, starts: set<nat>)
    decreases |f.code| - pos
  {
    Complete(f.code, pos) ==> TargetsOk(f, pos, starts) && SecondPass(f, Next(f.code, pos), starts)
  }

  predicate Accepts(f: Function) {
    f.localCount >= f.paramCount && FirstPass(f, 0) && f.code != [] && SecondPass(f, 0, Starts(f.code, 0))
  }

  datatype VerifyError =
    | TooFewLocals | InvalidOpcode(at: nat) | MissingOperands(at: nat) | BadOperand(at: nat) | EmptyCode
    | TargetOutOfRange(at: nat) | TargetInsideInstruction(at: nat)
    | EndOutOfRange(at: nat) | EndInsideInstruction(at: nat) | HandlerNotBetween(at: nat)

  /** Where the division into instructions stops: at the end of the code, or at what is not a complete instruction. */
  function Stop(code: Bytes, pos: nat): nat
    decreases |code| - pos
  {
    if Complete(code, pos) then Stop(code, Next(code, pos)) else pos
  }

  /** The instruction at `p` of the division from the start of the code. */
  predicate Starting(f: Function, p: nat) {
    p in Starts(f.code, 0) && Complete(f.code, p)
  }

  /** The function has the reported defect, at the instruction that is named. */
  predicate Blames(f: Function, e: VerifyError) {
    match e
    case TooFewLocals => f.localCount < f.paramCount
    case InvalidOpcode(p) => p == Stop(f.code, 0) && p < |f.code| && FromByte(f.code[p]).None?
    case MissingOperands(p) => p == Stop(f.code, 0) && OpAt(f.code, p) && Next(f.code, p) > |f.code|
    case BadOperand(p) => Starting(f, p) && !OperandsOk(f, p)
    case EmptyCode => f.code == []
    case TargetOutOfRange(p) => Starting(f, p) && Branches(Op(f.code, p)) && ReadU16(f.code, p + 1) >= |f.code|
    case TargetInsideInstruction(p) => Starting(f, p) && Branches(Op(f.code, p)) && ReadU16(f.code, p + 1) !in Starts(f.code, 0)
    case EndOutOfRange(p) => Starting(f, p) && Guards(Op(f.code, p)) && ReadU16(f.code, p + 3) >= |f.code|
    case EndInsideInstruction(p) => Starting(f, p) && Guards(Op(f.code, p)) && ReadU16(f.code, p + 3) !in Starts(f.code, 0)
    case HandlerNotBetween(p) =>
      Starting(f, p) && Guards(Op(f.code, p)) && !(p < ReadU16(f.code, p + 1) < ReadU16(f.code, p + 3))
  }

  method CheckOperands(f: Function, pos: nat) returns (ok: bool)
    requires Complete(f.code, pos)
    ensures ok <==> OperandsOk(f, pos)
  {
    var op, at := Op(f.code, pos), pos + 1;
    if op.LoadConst? {
      return ReadU16(f.code, at) < |f.constants|;
    } else if op.LoadArg? {
      return f.code[at] < f.paramCount;
    } else if op.LoadLocal? || op.StoreLocal? {
      return f.code[at] < f.localCount;
    } else if op.CallClosure? {
      var metadata := ReadU16(f.code, at);
      if metadata != 0 {
        if !StringAt(f, metadata - 1) { return false; }
        var value := f.constants[metadata - 1].s;
        if !StartsWith(value, NAMED_MARKER) { return false; }
        return CountNamedArguments(value, true) <= f.code[at + 2] as int;
      }
    } else if NamesAString(op) {
      var i := ReadU16(f.code, at);
      if !StringAt(f, i) { return false; }
      if PassesNamedArguments(op) {
        return CountNamedArguments(f.constants[i].s, false) <= f.code[at + 2] as int;
      }
    }
    return true;
  }

  method CheckTargets(f: Function, pos: nat, starts: set<nat>) returns (error: Option<VerifyError>)
    requires Complete(f.code, pos)
    ensures error.None? <==> TargetsOk(f, pos, starts)
    ensures error.Some? && starts == Starts(f.code, 0) && pos in starts ==> Blames(f, error.value)
  {
    var op, at := Op(f.code, pos), pos + 1;
    if Branches(op) {
      var target := ReadU16(f.code, at);
      if target >= |f.code| { return Some(TargetOutOfRange(pos)); }
      if target !in starts { return Some(TargetInsideInstruction(pos)); }
      if Guards(op) {
        var end := ReadU16(f.code, at + 2);
        if end >= |f.code| { return Some(EndOutOfRange(pos)); }
        if end !in starts { return Some(EndInsideInstruction(pos)); }
        if target <= pos || target >= end { return Some(HandlerNotBetween(pos)); }
      }
    }
    return None;
  }

  /** Both loops. The second one reads opcodes and operands the first has already found to be there. */
  method ValidateBytecode(f: Function) returns (r: Result<(), VerifyError>)
    ensures r.Ok? <==> Accepts(f)
    ensures r.Err? ==> Blames(f, r.error)
  {
    hide OperandsOk, TargetsOk, FromByte, OperandLen;
    if f.localCount < f.paramCount { return Err(TooFewLocals); }
    var pos := 0;
    var starts: set<nat> := {};
    while pos < |f.code|
      invariant FirstPass(f, 0) <==> FirstPass(f, pos)
      invariant Starts(f.code, 0) == starts + Starts(f.code, pos)
      invariant Stop(f.code, 0) == Stop(f.code, pos)
      decreases |f.code| - pos
    {
      starts := starts + {pos};
      var opcode := FromByte(f.code[pos]);
      if opcode.None? { return Err(InvalidOpcode(pos)); }
      var next := pos + 1 + OperandLen(opcode.value);
      if next > |f.code| { return Err(MissingOperands(pos)); }
      var ok := CheckOperands(f, pos);
      if !ok { return Err(BadOperand(pos)); }
      pos := next;
    }
    if f.code == [] { return Err(EmptyCode); }
    pos := 0;
    while pos < |f.code|
      invariant FirstPass(f, 0) && FirstPass(f, pos)
      invariant starts == Starts(f.code, 0) && Starts(f.code, pos) <= starts
      invariant SecondPass(f, 0, starts) <==> SecondPass(f, pos, starts)
      decreases |f.code| - pos
    {
      var opcode := FromByte(f.code[pos]).value;
      var error := CheckTargets(f, pos, starts);
      if error.Some? { return Err(error.value); }
      pos := pos + 1 + OperandLen(opcode);
    }
    return Ok(());
  }

  // ---------------------------------------------------------------- the declarative rules

  /** `cuts` lists the instruction starts and, last, the end of the code: each instruction reaches to the next cut. */
  ghost predicate Segmentation(code: Bytes, cuts: seq<nat>) {
    && |cuts| > 0 && cuts[0] == 0 && cuts[|cuts| - 1] == |code|
    && forall i | 0 <= i < |cuts| - 1 :: Complete(code, cuts[i]) && cuts[i + 1] == Next(code, cuts[i])
  }

  ghost predicate IsStart(cuts: seq<nat>, p: nat) {
    exists i | 0 <= i < |cuts| - 1 :: cuts[i] == p
  }

  /** The rules for branch targets, in terms of the cuts alone. */
  ghost predicate LandsOnStarts(f: Function, pos: nat, cuts: seq<nat>)
    requires Complete(f.code, pos)
  {
    var op, at := Op(f.code, pos), pos + 1;
    Branches(op) ==>
      && IsStart(cuts, ReadU16(f.code, at))
      && (Guards(op) ==> IsStart(cuts, ReadU16(f.code, at + 2)) && pos < ReadU16(f.code, at) < ReadU16(f.code, at + 2))
  }

  ghost predicate WellFormed(f: Function, cuts: seq<nat>) {
    && f.code != [] && f.localCount >= f.paramCount
    && Segmentation(f.code, cuts)
    && forall i | 0 <= i < |cuts| - 1 :: OperandsOk(f, cuts[i]) && LandsOnStarts(f, cuts[i], cuts)
  }

  /** A segmentation seen from one of its cuts on. */
  ghost predicate SegmentedFrom(code: Bytes, pos: nat, cuts: seq<nat>) {
    && |cuts| > 0 && cuts[0] == pos && cuts[|cuts| - 1] == |code|
    && forall i | 0 <= i < |cuts| - 1 :: Complete(code, cuts[i]) && cuts[i + 1] == Next(code, cuts[i])
  }

  lemma SegmentedTail(code: Bytes, pos: nat, cuts: seq<nat>)
    requires SegmentedFrom(code, pos, cuts) && |cuts| > 1
    ensures Complete(code, pos) && SegmentedFrom(code, Next(code, pos), cuts[1..])
  {
    assert Complete(code, cuts[0]);
    forall i | 0 <= i < |cuts[1..]| - 1 ensures Complete(code, cuts[1..][i]) && cuts[1..][i + 1] == Next(code, cuts[1..][i]) {
      assert Complete(code, cuts[i + 1]);
    }
  }

  lemma SegmentedCons(code: Bytes, pos: nat, cuts: seq<nat>)
    requires Complete(code, pos) && SegmentedFrom(code, Next(code, pos), cuts)
    ensures SegmentedFrom(code, pos, [pos] + cuts)
  {
    var all := [pos] + cuts;
    forall i | 0 <= i < |all| - 1 ensures Complete(code, all[i]) && all[i + 1] == Next(code, all[i]) {
      if i > 0 { assert all[i] == cuts[i - 1] && all[i + 1] == cuts[i]; }
    }
  }

  /** There is at most one segmentation. */
  lemma {:induction false} SegmentationIsUnique(code: Bytes, pos: nat, a: seq<nat>, b: seq<nat>)
    requires SegmentedFrom(code, pos, a) && SegmentedFrom(code, pos, b)
    ensures a == b
    decreases |a|
  {
    if |a| > 1 { SegmentedTail(code, pos, a); }
    if |b| > 1 { SegmentedTail(code, pos, b); }
    if |a| > 1 {
      SegmentationIsUnique(code, Next(code, pos), a[1..], b[1..]);
      assert a == [a[0]] + a[1..] && b == [b[0]] + b[1..];
    }
  }

  /** The first pass succeeds exactly when the code has a segmentation whose operands are all right. */
  lemma {:induction false} FirstPassSegments(f: Function, pos: nat) returns (cuts: seq<nat>)
    requires FirstPass(f, pos) && pos <= |f.code|
    ensures SegmentedFrom(f.code, pos, cuts) && forall i | 0 <= i < |cuts| - 1 :: OperandsOk(f, cuts[i])
    decreases |f.code| - pos
  {
    if pos == |f.code| {
      cuts := [pos];
    } else {
      var tail := FirstPassSegments(f, Next(f.code, pos));
      SegmentedCons(f.code, pos, tail);
      cuts := [pos] + tail;
      forall i | 0 <= i < |cuts| - 1 ensures OperandsOk(f, cuts[i]) {
        if i > 0 { assert cuts[i] == tail[i - 1]; }
      }
    }
  }

  lemma {:induction false} SegmentsPassFirst(f: Function, pos: nat, cuts: seq<nat>)
    requires SegmentedFrom(f.code, pos, cuts) && forall i | 0 <= i < |cuts| - 1 :: OperandsOk(f, cuts[i])
    ensures FirstPass(f, pos)
    decreases |cuts|
  {
    if |cuts| > 1 {
      SegmentedTail(f.code, pos, cuts);
      assert OperandsOk(f, cuts[0]);
      forall i | 0 <= i < |cuts[1..]| - 1 ensures OperandsOk(f, cuts[1..][i]) { assert OperandsOk(f, cuts[i + 1]); }
      SegmentsPassFirst(f, Next(f.code, pos), cuts[1..]);
    }
  }

  lemma {:induction false} StartsAreCuts(code: Bytes, pos: nat, cuts: seq<nat>, p: nat)
    requires SegmentedFrom(code, pos, cuts)
    ensures p in Starts(code, pos) <==> IsStart(cuts, p)
    decreases |cuts|
  {
    if |cuts| > 1 {
      SegmentedTail(code, pos, cuts);
      StartsAreCuts(code, Next(code, pos), cuts[1..], p);
      if IsStart(cuts[1..], p) {
        var i :| 0 <= i < |cuts[1..]| - 1 && cuts[1..][i] == p;
        assert cuts[i + 1] == p;
      }
      if i :| 0 < i < |cuts| - 1 && cuts[i] == p {
        assert cuts[1..][i - 1] == p;
      }
    }
  }

  /** The second pass visits exactly the cuts of the first. */
  lemma {:induction false} SecondPassVisitsCuts(f: Function, pos: nat, cuts: seq<nat>, starts: set<nat>)
    requires SegmentedFrom(f.code, pos, cuts)
    ensures SecondPass(f, pos, starts) <==> forall i | 0 <= i < |cuts| - 1 :: TargetsOk(f, cuts[i], starts)
    decreases |cuts|
  {
    if |cuts| > 1 {
      SegmentedTail(f.code, pos, cuts);
      SecondPassVisitsCuts(f, Next(f.code, pos), cuts[1..], starts);
      assert forall i | 0 <= i < |cuts[1..]| - 1 :: cuts[1..][i] == cuts[i + 1];
      if forall i | 0 <= i < |cuts[1..]| - 1 :: TargetsOk(f, cuts[1..][i], starts) {
        forall i | 0 < i < |cuts| - 1 ensures TargetsOk(f, cuts[i], starts) { assert cuts[1..][i - 1] == cuts[i]; }
      }
      if forall i | 0 <= i < |cuts| - 1 :: TargetsOk(f, cuts[i], starts) {
        assert TargetsOk(f, cuts[0], starts);
      }
    }
  }

  lemma TargetsLand(f: Function, pos: nat, cuts: seq<nat>)
    requires Complete(f.code, pos) && SegmentedFrom(f.code, 0, cuts)
    ensures TargetsOk(f, pos, Starts(f.code, 0)) <==> LandsOnStarts(f, pos, cuts)
  {
    var at := pos + 1;
    if Branches(Op(f.code, pos)) {
      StartsAreCuts(f.code, 0, cuts, ReadU16(f.code, at));
      StartsAreInside(f.code, 0, ReadU16(f.code, at));
      if Guards(Op(f.code, pos)) {
        StartsAreCuts(f.code, 0, cuts, ReadU16(f.code, at + 2));
        StartsAreInside(f.code, 0, ReadU16(f.code, at + 2));
      }
    }
  }

  lemma {:induction false} StartsAreInside(code: Bytes, pos: nat, p: nat)
    ensures p in Starts(code, pos) ==> pos <= p < |code| && Complete(code, p)
    decreases |code| - pos
  {
    if Complete(code, pos) {
      StartsAreInside(code, Next(code, pos), p);
    }
  }

  /** Exactness: the verifier accepts a function if and only if it is well formed, with one and only one segmentation. */
  lemma AcceptsIffWellFormed(f: Function)
    ensures Accepts(f) <==> exists cuts :: WellFormed(f, cuts)
    ensures forall a, b | WellFormed(f, a) && WellFormed(f, b) :: a == b
  {
    if Accepts(f) {
      var cuts := FirstPassSegments(f, 0);
      SecondPassVisitsCuts(f, 0, cuts, Starts(f.code, 0));
      forall i | 0 <= i < |cuts| - 1 ensures LandsOnStarts(f, cuts[i], cuts) {
        TargetsLand(f, cuts[i], cuts);
      }
      assert WellFormed(f, cuts);
    }
    if cuts :| WellFormed(f, cuts) {
      WellFormedAccepted(f, cuts);
    }
    forall a, b | WellFormed(f, a) && WellFormed(f, b) ensures a == b {
      SegmentationIsUnique(f.code, 0, a, b);
    }
  }

  lemma WellFormedAccepted(f: Function, cuts: seq<nat>)
    requires WellFormed(f, cuts)
    ensures Accepts(f)
  {
    SegmentsPassFirst(f, 0, cuts);
    forall i | 0 <= i < |cuts| - 1 ensures TargetsOk(f, cuts[i], Starts(f.code, 0)) {
      TargetsLand(f, cuts[i], cuts);
    }
    SecondPassVisitsCuts(f, 0, cuts, Starts(f.code, 0));
  }

  // ---------------------------------------------------------------- errors are defects

  lemma {:induction false} PassedFirst(f: Function, pos: nat, p: nat)
    requires FirstPass(f, pos)
    ensures Stop(f.code, pos) >= |f.code|
    ensures p in Starts(f.code, pos) && Complete(f.code, p) ==> OperandsOk(f, p)
    decreases |f.code| - pos
  {
    hide OperandsOk;
    if pos < |f.code| { PassedFirst(f, Next(f.code, pos), p); }
  }

  lemma {:induction false} PassedSecond(f: Function, pos: nat, starts: set<nat>, p: nat)
    requires SecondPass(f, pos, starts)
    ensures p in Starts(f.code, pos) && Complete(f.code, p) ==> TargetsOk(f, p, starts)
    decreases |f.code| - pos
  {
    hide TargetsOk;
    if Complete(f.code, pos) { PassedSecond(f, Next(f.code, pos), starts, p); }
  }

  lemma BlamedIsRejected(f: Function, e: VerifyError)
    requires Blames(f, e)
    ensures !Accepts(f)
  {
    hide FromByte, OperandLen, OperandsOk;
    if Accepts(f) {
      var p := if e.TooFewLocals? || e.EmptyCode? then 0 else e.at;
      PassedFirst(f, 0, p);
      PassedSecond(f, 0, Starts(f.code, 0), p);
    }
  }

  lemma {:induction false} FirstDefect(f: Function, pos: nat) returns (e: VerifyError)
    requires !FirstPass(f, pos) && Stop(f.code, 0) == Stop(f.code, pos) && Starts(f.code, pos) <= Starts(f.code, 0)
    ensures Blames(f, e)
    decreases |f.code| - pos
  {
    hide FromByte, OperandLen, OperandsOk;
    if FromByte(f.code[pos]).None? {
      e := InvalidOpcode(pos);
    } else if Next(f.code, pos) > |f.code| {
      e := MissingOperands(pos);
    } else if !OperandsOk(f, pos) {
      e := BadOperand(pos);
    } else {
      e := FirstDefect(f, Next(f.code, pos));
    }
  }

  lemma TargetDefect(f: Function, p: nat) returns (e: VerifyError)
    requires Starting(f, p) && !TargetsOk(f, p, Starts(f.code, 0))
    ensures Blames(f, e)
  {
    hide FromByte, OperandsOk;
    var target := ReadU16(f.code, p + 1);
    if target >= |f.code| { return TargetOutOfRange(p); }
    if target !in Starts(f.code, 0) { return TargetInsideInstruction(p); }
    var end := ReadU16(f.code, p + 3);
    if end >= |f.code| { return EndOutOfRange(p); }
    if end !in Starts(f.code, 0) { return EndInsideInstruction(p); }
    return HandlerNotBetween(p);
  }

  lemma {:induction false} SecondDefect(f: Function, pos: nat) returns (e: VerifyError)
    requires !SecondPass(f, pos, Starts(f.code, 0)) && Starts(f.code, pos) <= Starts(f.code, 0)
    ensures Blames(f, e)
    decreases |f.code| - pos
  {
    hide TargetsOk, Blames;
    if TargetsOk(f, pos, Starts(f.code, 0)) {
      e := SecondDefect(f, Next(f.code, pos));
    } else {
      e := TargetDefect(f, pos);
    }
  }

  /** The error list is exact: a function has a defect an error can name if and only if the verifier rejects it. */
  lemma RejectedIffBlamed(f: Function)
    ensures !Accepts(f) <==> exists e :: Blames(f, e)
  {
    hide FirstPass, SecondPass;
    if !Accepts(f) {
      var e;
      if f.localCount < f.paramCount { e := TooFewLocals; }
      else if !FirstPass(f, 0) { e := FirstDefect(f, 0); }
      else if f.code == [] { e := EmptyCode; }
      else { e := SecondDefect(f, 0); }
      assert Blames(f, e);
    }
    if e :| Blames(f, e) { BlamedIsRejected(f, e); }
  }

  // ---------------------------------------------------------------- soundness over every path

  /** Where control may go from `pos`: on, to a branch target, to a handler, or to the end of a guarded region. */
  predicate Edge(f: Function, pos: nat, to: nat) {
    Complete(f.code, pos) &&
    var op, at := Op(f.code, pos), pos + 1;
    || to == Next(f.code, pos)
    || (Branches(op) && to == ReadU16(f.code, at))
    || (Guards(op) && to == ReadU16(f.code, at + 2))
  }

  ghost predicate IsPath(f: Function, path: seq<nat>) {
    |path| > 0 && path[0] == 0 && forall i | 0 <= i < |path| - 1 :: Edge(f, path[i], path[i + 1])
  }

  /** The program counter is at an instruction whose operands are in range and name what they must, or at the end. */
  predicate Sound(f: Function, pc: nat) {
    pc == |f.code| || (Complete(f.code, pc) && OperandsOk(f, pc))
  }

  /** On accepted code every path from offset 0 stays on instruction starts until it reaches the end, and never leaves. */
  lemma {:induction false} PathsAreSound(f: Function, cuts: seq<nat>, path: seq<nat>)
    requires WellFormed(f, cuts) && IsPath(f, path)
    ensures forall i | 0 <= i < |path| :: Sound(f, path[i]) && path[i] in cuts
    decreases |path|
  {
    if |path| == 1 {
      assert path[0] == cuts[0];
    } else {
      var front := path[..|path| - 1];
      forall i | 0 <= i < |front| - 1 ensures Edge(f, front[i], front[i + 1]) {
        assert Edge(f, path[i], path[i + 1]);
      }
      PathsAreSound(f, cuts, front);
      var k := |path| - 1;
      assert front[k - 1] == path[k - 1] && Edge(f, path[k - 1], path[k]);
      EdgeStaysOnCuts(f, cuts, path[k - 1], path[k]);
      forall i | 0 <= i < |path| ensures Sound(f, path[i]) && path[i] in cuts {
        if i < k { assert front[i] == path[i]; }
      }
    }
    CutsAreSound(f, cuts);
  }

  lemma CutsAreSound(f: Function, cuts: seq<nat>)
    requires WellFormed(f, cuts)
    ensures forall p | p in cuts :: Sound(f, p)
  {
    forall p | p in cuts ensures Sound(f, p) {
      var i :| 0 <= i < |cuts| && cuts[i] == p;
      assert i < |cuts| - 1 ==> OperandsOk(f, cuts[i]);
    }
  }

  lemma EdgeStaysOnCuts(f: Function, cuts: seq<nat>, pos: nat, to: nat)
    requires WellFormed(f, cuts) && pos in cuts && Edge(f, pos, to)
    ensures to in cuts
  {
    var i :| 0 <= i < |cuts| && cuts[i] == pos;
    assert i < |cuts| - 1;
    assert LandsOnStarts(f, cuts[i], cuts);
    if to == Next(f.code, pos) {
      assert to == cuts[i + 1];
    }
  }

  /** The same for whatever `ValidateBytecode` accepts. */
  lemma AcceptedPathsAreSound(f: Function, path: seq<nat>)
    requires Accepts(f) && IsPath(f, path)
    ensures forall i | 0 <= i < |path| :: Sound(f, path[i])
  {
    AcceptsIffWellFormed(f);
    var cuts :| WellFormed(f, cuts);
    PathsAreSound(f, cuts, path);
  }
}
