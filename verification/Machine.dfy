/**
  An abstract machine that runs bytecode straight from its bytes: arguments, locals and constants are arrays, and a
  read outside them, of the wrong kind, or past the end of the code, leaves the machine stuck. Accepted bytecode never
  gets stuck, and the verifier accepts everything that cannot.
 */
module Machine {
  import opened Basics
  import opened Text
  import opened Bytecode
  import V = Verifier

  datatype Frame<T> = Frame(args: seq<T>, locals: seq<T>, constants: seq<T>, top: T)

  predicate FrameOf<T>(f: Function, frame: Frame<T>) {
    |frame.args| == f.paramCount && |frame.locals| == f.localCount && |frame.constants| == |f.constants|
  }

  // ---------------------------------------------------------------- operands

  /** How many operand bytes follow an opcode byte. */
  function OperandBytes(b: byte): nat {
    if b in {0x01, 0x30, 0x31, 0x32, 0x40, 0x41, 0x42, 0x43, 0x44, 0x45, 0x46, 0x54} then 2
    else if b in {0x50, 0x51, 0x52, 0x53, 0x55} then 3
    else if b in {0x61, 0x65} then 4
    else if b in {0x02, 0x03, 0x04} then 1
    else 0
  }

  /** Opcodes that need nothing but themselves. */
  predicate Bare(b: byte) {
    b in {0x05, 0x10, 0x11, 0x12, 0x13, 0x20, 0x21, 0x60, 0x62, 0x63, 0x64, 0x66, 0x67, 0xff}
  }

  function At<T>(s: seq<T>, i: int): Option<T> {
    if 0 <= i < |s| then Some(s[i]) else None
  }

  function Word(code: Bytes, at: nat): Option<nat> {
    if at + 2 <= |code| then Some(code[at] as int * 256 + code[at + 1] as int) else None
  }

  function Name(f: Function, i: int): Option<Text> {
    if 0 <= i < |f.constants| && f.constants[i].String? then Some(f.constants[i].s) else None
  }

  // ---------------------------------------------------------------- named arguments

  predicate MarkerAt(s: Bytes, at: nat) {
    at + 7 <= |s| && s[at..at + 7] == Ascii(";named:")
  }

  /** Which pieces are names. */
  function Names(pieces: seq<Bytes>): set<int> {
    set i | 0 <= i < |pieces| && pieces[i] != []
  }

  /** `s` from the first marker on is that marker followed by `pieces` between commas. */
  ghost predicate Lists(s: Bytes, at: nat, pieces: seq<Bytes>) {
    && MarkerAt(s, at) && (forall j: nat | j < at :: !MarkerAt(s, j))
    && pieces != [] && (forall p | p in pieces :: COMMA !in p) && s[at + 7..] == Join(pieces)
  }

  /** `n` names follow the first marker: the non-empty pieces between commas. */
  ghost predicate NamesThisMany(s: Bytes, n: nat) {
    || (n == 0 && forall at: nat :: !MarkerAt(s, at))
    || exists at: nat, pieces: seq<Bytes> :: Lists(s, at, pieces) && n == |Names(pieces)|
  }

  lemma {:induction false} CountAppend(front: seq<Bytes>, last: Bytes)
    ensures CountNonEmpty(front + [last]) == CountNonEmpty(front) + (if last == [] then 0 else 1)
  {
    if front == [] {
      assert [] + [last] == [last];
    } else {
      CountAppend(front[1..], last);
      assert (front + [last])[1..] == front[1..] + [last];
    }
  }

  lemma {:induction false} CountIsCardinality(pieces: seq<Bytes>)
    ensures CountNonEmpty(pieces) == |Names(pieces)|
  {
    if pieces != [] {
      var front, last := pieces[..|pieces| - 1], pieces[|pieces| - 1];
      assert pieces == front + [last];
      CountIsCardinality(front);
      CountAppend(front, last);
      assert Names(pieces) == Names(front) + (if last == [] then {} else {|front|});
    }
  }

  lemma MarkerBytes()
    ensures Ascii(";named:") == NAMED_MARKER
  {
    assert |";named:"| == 7;
  }

  lemma MarkerAtIff(s: Bytes, at: nat)
    ensures MarkerAt(s, at) <==> at <= |s| && StartsWith(s[at..], NAMED_MARKER)
  {
    hide Ascii;
    MarkerBytes();
    if at + 7 <= |s| { assert s[at..][..7] == s[at..at + 7]; }
  }

  lemma FindMarkerFinds(s: Bytes)
    ensures var at := FindMarker(s);
            && (forall j: nat | j < at :: !MarkerAt(s, j))
            && (at < |s| ==> MarkerAt(s, at))
            && (at == |s| ==> forall j: nat :: !MarkerAt(s, j))
  {
    hide FindMarker, MarkerAt, StartsWith;
    var at := FindMarker(s);
    forall j: nat | j < at ensures !MarkerAt(s, j) {
      FindMarkerIsFirst(s, j);
      MarkerAtIff(s, j);
    }
    MarkerAtIff(s, at);
    if at == |s| {
      forall j: nat ensures !MarkerAt(s, j) { if MarkerAt(s, j) { MarkerNeedsRoom(s, j); } }
    }
  }

  lemma MarkerNeedsRoom(s: Bytes, at: nat)
    requires MarkerAt(s, at)
    ensures at + 7 <= |s|
  {
  }

  lemma ListedPieces(s: Bytes, at: nat, pieces: seq<Bytes>)
    requires Lists(s, at, pieces)
    ensures at == FindMarker(s) < |s| && pieces == Split(s[at + 7..])
  {
    hide FindMarker, Split, MarkerAt, Join;
    FindMarkerFinds(s);
    MarkerNeedsRoom(s, at);
    SplitUndoesJoin(pieces);
  }

  lemma SplitIsListed(s: Bytes)
    requires FindMarker(s) < |s|
    ensures FindMarker(s) + 7 <= |s| && Lists(s, FindMarker(s), Split(s[FindMarker(s) + 7..]))
  {
    hide FindMarker, Split, MarkerAt, Join;
    FindMarkerFinds(s);
    MarkerNeedsRoom(s, FindMarker(s));
    JoinUndoesSplit(s[FindMarker(s) + 7..]);
  }

  lemma NamesThisManyIff(s: Bytes, n: nat)
    ensures NamesThisMany(s, n) <==> n == CountNamedArguments(s, false)
    ensures MarkerAt(s, 0) ==> CountNamedArguments(s, true) == CountNamedArguments(s, false)
  {
    hide FindMarker, Split, CountNonEmpty, Names, Lists, MarkerAt;
    FindMarkerFinds(s);
    var at := FindMarker(s);
    if at < |s| {
      SplitIsListed(s);
      CountIsCardinality(Split(s[at + 7..]));
      if a: nat, pieces: seq<Bytes> :| Lists(s, a, pieces) && n == |Names(pieces)| { ListedPieces(s, a, pieces); }
      assert MarkerAt(s, at);
    } else {
      if a: nat, pieces: seq<Bytes> :| Lists(s, a, pieces) && n == |Names(pieces)| { ListedPieces(s, a, pieces); }
    }
  }

  /** A call with `count` arguments has room for the names its metadata gives. */
  ghost predicate Fits(metadata: Bytes, count: nat) {
    exists n: nat | n <= count :: NamesThisMany(metadata, n)
  }

  lemma FitsIff(s: Bytes, count: nat)
    ensures Fits(s, count) <==> CountNamedArguments(s, false) <= count
  {
    hide NamesThisMany, CountNamedArguments;
    NamesThisManyIff(s, CountNamedArguments(s, false));
    forall n: nat ensures NamesThisMany(s, n) <==> n == CountNamedArguments(s, false) { NamesThisManyIff(s, n); }
  }

  // ---------------------------------------------------------------- the machine

  /** The call or access can find what it names. */
  ghost predicate Finds(f: Function, b: byte, i: nat, count: nat) {
    if b == 0x53 then i == 0 || (Name(f, i - 1).Some? && MarkerAt(Name(f, i - 1).value, 0) && Fits(Name(f, i - 1).value, count))
    else Name(f, i).Some? && (b in {0x51, 0x52, 0x55} ==> Fits(Name(f, i).value, count))
  }

  /** What one instruction does to the frame; stuck when it cannot read what it needs. */
  ghost function Perform<T>(f: Function, pc: nat, frame: Frame<T>): Option<Frame<T>> {
    var code := f.code;
    if pc >= |code| || pc + 1 + OperandBytes(code[pc]) > |code| then None
    else
      var b := code[pc];
      if Bare(b) || b in {0x30, 0x31, 0x32, 0x40, 0x41, 0x42, 0x61, 0x65} then Some(frame)
      else if b == 0x01 then
        match At(frame.constants, Word(code, pc + 1).value) case Some(v) => Some(frame.(top := v)) case None => None
      else if b == 0x02 then
        match At(frame.args, code[pc + 1]) case Some(v) => Some(frame.(top := v)) case None => None
      else if b == 0x03 then
        match At(frame.locals, code[pc + 1]) case Some(v) => Some(frame.(top := v)) case None => None
      else if b == 0x04 then
        if code[pc + 1] < |frame.locals| then Some(frame.(locals := frame.locals[code[pc + 1] := frame.top])) else None
      else if b in {0x43, 0x44, 0x45, 0x46, 0x54} then
        if Finds(f, b, Word(code, pc + 1).value, 0) then Some(frame) else None
      else if b in {0x50, 0x51, 0x52, 0x53, 0x55} then
        if Finds(f, b, Word(code, pc + 1).value, code[pc + 3]) then Some(frame) else None
      else None
  }

  /** Where control may go next: on, to a branch target, to a handler or to the end of what it guards. */
  predicate Follows(code: Bytes, pc: nat, to: nat) {
    pc < |code| &&
    var b := code[pc];
    || to == pc + 1 + OperandBytes(b)
    || (b in {0x30, 0x31, 0x32, 0x61, 0x65} && Word(code, pc + 1) == Some(to))
    || (b in {0x61, 0x65} && Word(code, pc + 3) == Some(to))
  }

  datatype Config<T> = Config(pc: nat, frame: Frame<T>)

  ghost predicate Moves<T(!new)>(f: Function, a: Config<T>, b: Config<T>) {
    Perform(f, a.pc, a.frame) == Some(b.frame) && Follows(f.code, a.pc, b.pc)
  }

  ghost predicate IsExecution<T(!new)>(f: Function, run: seq<Config<T>>) {
    && |run| > 0 && run[0].pc == 0 && FrameOf(f, run[0].frame)
    && forall i | 0 <= i < |run| - 1 :: Moves(f, run[i], run[i + 1])
  }

  // ---------------------------------------------------------------- the machine and the verifier

  lemma SameOpcodes(b: byte)
    ensures FromByte(b).Some? <==> Bare(b) || OperandBytes(b) > 0
    ensures FromByte(b).Some? ==> OperandLen(FromByte(b).value) == OperandBytes(b)
  {
  }

  lemma PerformsIfAccess<T>(f: Function, pc: nat, frame: Frame<T>)
    requires FrameOf(f, frame) && pc < |f.code| && f.code[pc] in {0x01, 0x02, 0x03, 0x04}
    ensures Perform(f, pc, frame).Some? <==> V.Complete(f.code, pc) && V.OperandsOk(f, pc)
    ensures Perform(f, pc, frame).Some? ==> FrameOf(f, Perform(f, pc, frame).value)
  {
    hide Finds, CountNamedArguments, ValidUtf8;
  }

  lemma PerformsIfNamed<T>(f: Function, pc: nat, frame: Frame<T>)
    requires FrameOf(f, frame) && pc < |f.code| && f.code[pc] in {0x43, 0x44, 0x45, 0x46, 0x50, 0x51, 0x52, 0x54, 0x55}
    ensures Perform(f, pc, frame).Some? <==> V.Complete(f.code, pc) && V.OperandsOk(f, pc)
    ensures Perform(f, pc, frame).Some? ==> FrameOf(f, Perform(f, pc, frame).value)
  {
    hide CountNamedArguments, Fits, ValidUtf8;
    if pc + 1 + OperandBytes(f.code[pc]) <= |f.code| {
      var i := Word(f.code, pc + 1).value;
      assert i == V.ReadU16(f.code, pc + 1);
      assert Name(f, i).Some? <==> V.StringAt(f, i);
      if V.StringAt(f, i) && f.code[pc] in {0x51, 0x52, 0x55} { FitsIff(f.constants[i].s, f.code[pc + 3]); }
    }
  }

  lemma PerformsIfClosure<T>(f: Function, pc: nat, frame: Frame<T>)
    requires FrameOf(f, frame) && pc < |f.code| && f.code[pc] == 0x53
    ensures Perform(f, pc, frame).Some? <==> V.Complete(f.code, pc) && V.OperandsOk(f, pc)
    ensures Perform(f, pc, frame).Some? ==> FrameOf(f, Perform(f, pc, frame).value)
  {
    hide CountNamedArguments, Fits, ValidUtf8;
    if pc + 4 <= |f.code| {
      var i := Word(f.code, pc + 1).value;
      assert i == V.ReadU16(f.code, pc + 1);
      if i > 0 && V.StringAt(f, i - 1) {
        var s := f.constants[i - 1].s;
        assert Name(f, i - 1) == Some(s);
        MarkerBytes();
        assert MarkerAt(s, 0) <==> StartsWith(s, NAMED_MARKER) by { if |s| >= 7 { assert s[0..7] == s[..7]; } }
        NamesThisManyIff(s, 0);
        FitsIff(s, f.code[pc + 3]);
      }
    }
  }

  lemma PerformsIfOther<T>(f: Function, pc: nat, frame: Frame<T>)
    requires FrameOf(f, frame) && pc < |f.code|
    requires f.code[pc] !in {0x01, 0x02, 0x03, 0x04, 0x43, 0x44, 0x45, 0x46, 0x50, 0x51, 0x52, 0x53, 0x54, 0x55}
    ensures Perform(f, pc, frame).Some? <==> V.Complete(f.code, pc) && V.OperandsOk(f, pc)
    ensures Perform(f, pc, frame).Some? ==> FrameOf(f, Perform(f, pc, frame).value)
  {
    hide CountNamedArguments, Finds, ValidUtf8;
    SameOpcodes(f.code[pc]);
  }

  /** An instruction gets stuck if and only if the verifier's first pass objects to it. */
  lemma PerformsIff<T>(f: Function, pc: nat, frame: Frame<T>)
    requires FrameOf(f, frame)
    ensures Perform(f, pc, frame).Some? <==> V.Complete(f.code, pc) && V.OperandsOk(f, pc)
    ensures Perform(f, pc, frame).Some? ==> FrameOf(f, Perform(f, pc, frame).value)
  {
    hide FrameOf, V.OperandsOk, FromByte, OperandLen, Finds, OperandBytes, Bare;
    if pc < |f.code| {
      var b := f.code[pc];
      if b in {0x01, 0x02, 0x03, 0x04} { PerformsIfAccess(f, pc, frame); }
      else if b in {0x43, 0x44, 0x45, 0x46, 0x50, 0x51, 0x52, 0x54, 0x55} { PerformsIfNamed(f, pc, frame); }
      else if b == 0x53 { PerformsIfClosure(f, pc, frame); }
      else { PerformsIfOther(f, pc, frame); }
    }
  }

  lemma FollowsIff(f: Function, pc: nat, to: nat)
    requires V.Complete(f.code, pc)
    ensures Follows(f.code, pc, to) <==> V.Edge(f, pc, to)
    ensures V.Next(f.code, pc) == pc + 1 + OperandBytes(f.code[pc])
    ensures V.Branches(V.Op(f.code, pc)) <==> f.code[pc] in {0x30, 0x31, 0x32, 0x61, 0x65}
    ensures V.Guards(V.Op(f.code, pc)) <==> f.code[pc] in {0x61, 0x65}
  {
    SameOpcodes(f.code[pc]);
  }

  // ---------------------------------------------------------------- accepted code never gets stuck

  ghost function Visited<T(!new)>(run: seq<Config<T>>): (path: seq<nat>)
    ensures |path| == |run| && forall i | 0 <= i < |run| :: path[i] == run[i].pc
  {
    seq(|run|, i requires 0 <= i < |run| => run[i].pc)
  }

  lemma {:induction false} FrameStays<T(!new)>(f: Function, run: seq<Config<T>>, k: nat)
    requires IsExecution(f, run) && k < |run|
    ensures FrameOf(f, run[k].frame)
    decreases k
  {
    hide FrameOf, Perform, Follows;
    if k > 0 {
      FrameStays(f, run, k - 1);
      assert Moves(f, run[k - 1], run[k]);
      PerformsIff(f, run[k - 1].pc, run[k - 1].frame);
    }
  }

  /** On accepted code, wherever an execution gets to, it can go on or has reached the end: no read ever fails. */
  lemma AcceptedNeverStuck<T(!new)>(f: Function, run: seq<Config<T>>, k: nat)
    requires V.Accepts(f) && IsExecution(f, run) && k < |run|
    ensures run[k].pc == |f.code| || Perform(f, run[k].pc, run[k].frame).Some?
  {
    hide V.Accepts, Perform, Follows, V.Edge, FrameOf, V.OperandsOk;
    var path := Visited(run);
    forall i | 0 <= i < |path| - 1 ensures V.Edge(f, path[i], path[i + 1]) {
      assert Moves(f, run[i], run[i + 1]);
      FrameStays(f, run, i);
      PerformsIff(f, run[i].pc, run[i].frame);
      FollowsIff(f, run[i].pc, run[i + 1].pc);
    }
    V.AcceptedPathsAreSound(f, path);
    assert V.Sound(f, path[k]);
    FrameStays(f, run, k);
    PerformsIff(f, run[k].pc, run[k].frame);
  }

  // ---------------------------------------------------------------- and nothing else is rejected

  /** The code divides into instructions at `cuts`, the last of which is its end. */
  ghost predicate Division(code: Bytes, cuts: seq<nat>) {
    && |cuts| > 0 && cuts[0] == 0 && cuts[|cuts| - 1] == |code|
    && forall i | 0 <= i < |cuts| - 1 :: cuts[i] < |code| && cuts[i + 1] == cuts[i] + 1 + OperandBytes(code[cuts[i]])
  }

  ghost predicate IsCut(cuts: seq<nat>, to: Option<nat>) {
    to.Some? && exists i | 0 <= i < |cuts| - 1 :: cuts[i] == to.value
  }

  /** Branches land on instructions, and a handler lies between its instruction and the end of what it guards. */
  ghost predicate Lands(code: Bytes, pc: nat, cuts: seq<nat>)
    requires pc < |code|
  {
    && (code[pc] in {0x30, 0x31, 0x32, 0x61, 0x65} ==> IsCut(cuts, Word(code, pc + 1)))
    && (code[pc] in {0x61, 0x65} ==>
          && IsCut(cuts, Word(code, pc + 3))
          && pc < Word(code, pc + 1).value < Word(code, pc + 3).value)
  }

  /** No instruction of the division gets stuck on `frame`, and all branches land. */
  ghost predicate Runnable<T>(f: Function, cuts: seq<nat>, frame: Frame<T>) {
    && Division(f.code, cuts)
    && forall i | 0 <= i < |cuts| - 1 :: Perform(f, cuts[i], frame).Some? && Lands(f.code, cuts[i], cuts)
  }

  lemma LandsIff(f: Function, pc: nat, cuts: seq<nat>)
    requires V.Complete(f.code, pc)
    ensures Lands(f.code, pc, cuts) <==> V.LandsOnStarts(f, pc, cuts)
  {
    hide FromByte, OperandLen;
    FollowsIff(f, pc, pc);
    if f.code[pc] in {0x30, 0x31, 0x32, 0x61, 0x65} {
      SameWidth(f, pc);
      assert Word(f.code, pc + 1) == Some(V.ReadU16(f.code, pc + 1));
      assert f.code[pc] in {0x61, 0x65} ==> Word(f.code, pc + 3) == Some(V.ReadU16(f.code, pc + 3));
      forall to: nat ensures IsCut(cuts, Some(to)) <==> V.IsStart(cuts, to) {}
    }
  }

  lemma SameWidth(f: Function, pc: nat)
    requires V.Complete(f.code, pc)
    ensures pc + 1 + OperandBytes(f.code[pc]) <= |f.code|
  {
    FollowsIff(f, pc, pc);
  }

  lemma WellFormedIffRunnable<T>(f: Function, cuts: seq<nat>, frame: Frame<T>)
    requires FrameOf(f, frame)
    ensures V.WellFormed(f, cuts) <==> f.code != [] && f.localCount >= f.paramCount && Runnable(f, cuts, frame)
  {
    hide FrameOf, FromByte, OperandLen, Perform, V.OperandsOk, V.LandsOnStarts, Lands, OperandBytes, V.Complete;
    forall pc: nat
      ensures Perform(f, pc, frame).Some? <==> V.Complete(f.code, pc) && V.OperandsOk(f, pc)
    {
      PerformsIff(f, pc, frame);
    }
    forall pc: nat | V.Complete(f.code, pc)
      ensures pc < |f.code| && (Lands(f.code, pc, cuts) <==> V.LandsOnStarts(f, pc, cuts))
      ensures V.OpAt(f.code, pc) && V.Next(f.code, pc) == pc + 1 + OperandBytes(f.code[pc])
    {
      CompleteInside(f, pc);
      LandsIff(f, pc, cuts);
      FollowsIff(f, pc, pc);
    }
  }

  lemma CompleteInside(f: Function, pc: nat)
    requires V.Complete(f.code, pc)
    ensures pc < |f.code| && V.OpAt(f.code, pc)
  {
  }

  function Zeros(f: Function): (frame: Frame<int>)
    ensures FrameOf(f, frame)
  {
    Frame(seq(f.paramCount, _ => 0), seq(f.localCount, _ => 0), seq(|f.constants|, _ => 0), 0)
  }

  /** Exactly the functions are accepted that have room for their arguments and whose code divides into instructions that run. */
  lemma AcceptsIffRunnable(f: Function)
    ensures V.Accepts(f) <==>
            f.code != [] && f.localCount >= f.paramCount && exists cuts :: Runnable(f, cuts, Zeros(f))
  {
    hide V.Accepts, V.WellFormed, Runnable, Zeros;
    V.AcceptsIffWellFormed(f);
    if V.Accepts(f) {
      var cuts :| V.WellFormed(f, cuts);
      WellFormedIffRunnable(f, cuts, Zeros(f));
    }
    if f.code != [] && f.localCount >= f.paramCount {
      if cuts :| Runnable(f, cuts, Zeros(f)) {
        WellFormedIffRunnable(f, cuts, Zeros(f));
        assert V.WellFormed(f, cuts);
      }
    }
  }
}
