/**
  The linear scan for call targets (crates/fcb_core/src/bytecode.rs, `targets_for`) and the build-time gate that
  uses it (cli/src/main.rs, `gate_call_original_aot_presence`).
 */
module AotGate {
  import opened Basics
  import opened Text
  import opened Bytecode
  import opened Container
  import Codec
  import BinaryIo
  import V = Verifier

  // ---------------------------------------------------------------- the ordered set of targets

  /** Rust's order on strings: byte by byte, a proper prefix first. */
  predicate Below(a: Bytes, b: Bytes) {
    b != [] && (a == [] || a[0] < b[0] || (a[0] == b[0] && Below(a[1..], b[1..])))
  }

  /** Either a proper prefix, or smaller at the first place where they differ. */
  lemma {:induction false} BelowIff(a: Bytes, b: Bytes)
    ensures Below(a, b) <==> a < b || exists k: nat :: k < |a| && k < |b| && a[..k] == b[..k] && a[k] < b[k]
  {
    if a == [] || b == [] {
    } else if a[0] == b[0] {
      var x, y := a[1..], b[1..];
      BelowIff(x, y);
      assert a == [a[0]] + x && b == [b[0]] + y;
      if k: nat :| k < |x| && k < |y| && x[..k] == y[..k] && x[k] < y[k] {
        assert a[..k + 1] == [a[0]] + x[..k] && b[..k + 1] == [b[0]] + y[..k] && a[k + 1] < b[k + 1];
      }
      if k: nat :| k < |a| && k < |b| && a[..k] == b[..k] && a[k] < b[k] {
        assert k > 0 && x[..k - 1] == a[..k][1..] && y[..k - 1] == b[..k][1..] && x[k - 1] < y[k - 1];
      }
    } else {
      assert a[..0] == b[..0];
      if k: nat :| k < |a| && k < |b| && a[..k] == b[..k] && a[k] < b[k] {
        assert k > 0 ==> a[..k][0] == b[..k][0];
      }
    }
  }

  lemma {:induction false} BelowIsTotal(a: Bytes, b: Bytes)
    ensures a == b || Below(a, b) || Below(b, a)
  {
    if a != [] && b != [] {
      BelowIsTotal(a[1..], b[1..]);
      assert a == [a[0]] + a[1..] && b == [b[0]] + b[1..];
    }
  }

  lemma {:induction false} BelowIsTransitive(a: Bytes, b: Bytes, c: Bytes)
    requires Below(a, b) && Below(b, c)
    ensures Below(a, c)
  {
    if a != [] && a[0] == b[0] == c[0] {
      BelowIsTransitive(a[1..], b[1..], c[1..]);
    }
  }

  lemma {:induction false} BelowIsStrict(a: Bytes, b: Bytes)
    requires Below(a, b)
    ensures a != b && !Below(b, a)
  {
    if a != [] && a[0] == b[0] {
      BelowIsStrict(a[1..], b[1..]);
    }
  }

  ghost predicate Ascending(ts: seq<Text>) {
    forall i, j | 0 <= i < j < |ts| :: Below(ts[i], ts[j])
  }

  ghost predicate SameElements(ts: seq<Text>, s: set<Text>) {
    forall t: Text :: t in ts <==> t in s
  }

  /** `BTreeSet::insert`, on the set's ascending listing. */
  function Insert(ts: seq<Text>, t: Text): seq<Text> {
    if ts == [] || Below(t, ts[0]) then [t] + ts
    else if t == ts[0] then ts
    else [ts[0]] + Insert(ts[1..], t)
  }

  lemma {:induction false} InsertListsTheLargerSet(ts: seq<Text>, s: set<Text>, t: Text)
    requires Ascending(ts) && SameElements(ts, s)
    ensures Ascending(Insert(ts, t)) && SameElements(Insert(ts, t), s + {t})
  {
    hide Below, ValidUtf8;
    InsertAdds(ts, t);
    InsertStaysAscending(ts, t);
  }

  lemma {:induction false} InsertAdds(ts: seq<Text>, t: Text)
    ensures forall u :: u in Insert(ts, t) <==> u == t || u in ts
  {
    hide Below, ValidUtf8;
    if ts != [] && !Below(t, ts[0]) && t != ts[0] {
      InsertAdds(ts[1..], t);
      assert ts == [ts[0]] + ts[1..];
    }
  }

  lemma {:induction false} InsertStaysAscending(ts: seq<Text>, t: Text)
    requires Ascending(ts)
    ensures Ascending(Insert(ts, t))
  {
    hide Below, ValidUtf8;
    if ts == [] {
    } else if Below(t, ts[0]) {
      forall i | 0 <= i < |ts| ensures Below(t, ts[i]) {
        if i > 0 { BelowIsTransitive(t, ts[0], ts[i]); }
      }
    } else if t != ts[0] {
      BelowIsTotal(t, ts[0]);
      var tail := Insert(ts[1..], t);
      InsertStaysAscending(ts[1..], t);
      InsertAdds(ts[1..], t);
      forall j | 0 <= j < |tail| ensures Below(ts[0], tail[j]) {
        assert tail[j] in tail;
        if tail[j] != t {
          var i :| 0 <= i < |ts[1..]| && ts[1..][i] == tail[j];
          assert Below(ts[0], ts[i + 1]);
        }
      }
    }
  }

  /** A set has only one ascending listing, so the returned vector is determined by which targets there are. */
  lemma {:induction false} AscendingListingIsUnique(a: seq<Text>, b: seq<Text>)
    requires Ascending(a) && Ascending(b) && forall t :: t in a <==> t in b
    ensures a == b
    decreases |a|
  {
    hide Below, ValidUtf8;
    assert b != [] ==> b[0] in b;
    if a != [] {
      assert a[0] in a;
      LeastComesFirst(a, b);
      assert a == [a[0]] + a[1..] && b == [b[0]] + b[1..];
      TailElements(a);
      TailElements(b);
      AscendingListingIsUnique(a[1..], b[1..]);
    }
  }

  lemma LeastComesFirst(a: seq<Text>, b: seq<Text>)
    requires Ascending(a) && Ascending(b) && (forall t :: t in a <==> t in b) && a != [] && b != []
    ensures a[0] == b[0]
  {
    hide Below, ValidUtf8;
    assert a[0] in a && b[0] in b;
    var i :| 0 <= i < |b| && b[i] == a[0];
    var j :| 0 <= j < |a| && a[j] == b[0];
    if i > 0 && j > 0 {
      BelowIsStrict(b[0], b[i]);
    }
  }

  lemma TailElements(a: seq<Text>)
    requires Ascending(a) && a != []
    ensures forall t :: t in a[1..] <==> t in a && t != a[0]
  {
    hide Below, ValidUtf8;
    assert a == [a[0]] + a[1..];
    forall i | 0 <= i < |a[1..]| ensures a[1..][i] != a[0] {
      BelowIsStrict(a[0], a[i + 1]);
    }
  }

  // ---------------------------------------------------------------- the scan

  /** The string constant an occurrence of one of `ops` names, if both operand bytes are there and it is a string. */
  function NamedAt(f: Function, pos: nat, ops: set<OpCode>): set<Text>
    requires V.OpAt(f.code, pos)
  {
    if V.Op(f.code, pos) in ops && pos + 3 <= |f.code| && V.StringAt(f, V.ReadU16(f.code, pos + 1))
    then {f.constants[V.ReadU16(f.code, pos + 1)].s}
    else {}
  }

  /** What the scan of one function collects from `pos` on. It stops at the first unknown opcode. */
  function TargetsFrom(f: Function, pos: nat, ops: set<OpCode>): set<Text>
    decreases |f.code| - pos
  {
    if !V.OpAt(f.code, pos) then {}
    else NamedAt(f, pos, ops) + TargetsFrom(f, V.Next(f.code, pos), ops)
  }

  function Targets(functions: seq<Function>, ops: set<OpCode>): set<Text> {
    if functions == [] then {}
    else Targets(functions[..|functions| - 1], ops) + TargetsFrom(functions[|functions| - 1], 0, ops)
  }

  method ScanFunction(f: Function, ops: set<OpCode>, before: seq<Text>, ghost s: set<Text>) returns (targets: seq<Text>)
    requires Ascending(before) && SameElements(before, s)
    ensures Ascending(targets) && SameElements(targets, s + TargetsFrom(f, 0, ops))
  {
    hide FromByte, OperandLen, Below, Ascending, SameElements, Insert, ValidUtf8;
    targets := before;
    var pos := 0;
    ghost var seen := s;
    while pos < |f.code|
      invariant Ascending(targets) && SameElements(targets, seen)
      invariant s + TargetsFrom(f, 0, ops) == seen + TargetsFrom(f, pos, ops)
      decreases |f.code| - pos
    {
      var opcode := FromByte(f.code[pos]);
      if opcode.None? { break; }
      var operandStart := pos + 1;
      ghost var named := NamedAt(f, pos, ops);
      if opcode.value in ops && operandStart + 2 <= |f.code| {
        var i := V.ReadU16(f.code, operandStart);
        if V.StringAt(f, i) {
          InsertListsTheLargerSet(targets, seen, f.constants[i].s);
          targets := Insert(targets, f.constants[i].s);
        }
      }
      assert seen + named + TargetsFrom(f, V.Next(f.code, pos), ops) == seen + TargetsFrom(f, pos, ops);
      assert named == {} ==> seen + named == seen;
      seen := seen + named;
      pos := operandStart + OperandLen(opcode.value);
    }
    assert TargetsFrom(f, pos, ops) == {};
    assert seen == seen + {};
  }

  /** `targets_for` */
  method TargetsFor(m: Module, ops: set<OpCode>) returns (targets: seq<Text>)
    ensures Ascending(targets) && SameElements(targets, Targets(m.functions, ops))
  {
    hide TargetsFrom, ValidUtf8;
    targets := [];
    for i := 0 to |m.functions|
      invariant Ascending(targets) && SameElements(targets, Targets(m.functions[..i], ops))
    {
      assert m.functions[..i + 1][..i] == m.functions[..i];
      targets := ScanFunction(m.functions[i], ops, targets, Targets(m.functions[..i], ops));
    }
    assert m.functions[..|m.functions|] == m.functions;
  }

  const AOT_DISPATCHED: set<OpCode> := {CallStatic, CallOriginal}

  /** `missing_aot_targets` */
  method MissingAotTargets(m: Module, present: set<Text>) returns (missing: seq<Text>)
    ensures Ascending(missing) && SameElements(missing, Targets(m.functions, AOT_DISPATCHED) - present)
  {
    hide Targets, Below, ValidUtf8;
    var targets := TargetsFor(m, AOT_DISPATCHED);
    missing := [];
    for i := 0 to |targets|
      invariant Ascending(missing)
      invariant forall t :: t in missing <==> t in targets[..i] && t !in present
    {
      if targets[i] !in present {
        forall k | 0 <= k < |missing| ensures Below(missing[k], targets[i]) {
          assert missing[k] in missing;
          var j :| 0 <= j < i && targets[..i][j] == missing[k];
          assert targets[j] == missing[k];
        }
        missing := missing + [targets[i]];
      }
      assert targets[..i + 1] == targets[..i] + [targets[i]];
    }
    assert targets[..|targets|] == targets;
  }

  // ---------------------------------------------------------------- what the scan means

  /** The instruction at `pos` is one of `ops` and its first operand names the string `t`. */
  predicate Names(f: Function, pos: nat, ops: set<OpCode>, t: Text) {
    && V.Complete(f.code, pos) && V.Op(f.code, pos) in ops && pos + 3 <= |f.code|
    && V.StringAt(f, V.ReadU16(f.code, pos + 1)) && f.constants[V.ReadU16(f.code, pos + 1)].s == t
  }

  /** Some instruction of the segmentation, in some function, names `t`. */
  ghost predicate NamedSomewhere(f: Function, cuts: seq<nat>, ops: set<OpCode>, t: Text) {
    exists i | 0 <= i < |cuts| - 1 :: Names(f, cuts[i], ops, t)
  }

  /**
    The scan sees the instructions of the segmentation and no others: never a byte inside an operand. Any opcodes
    will do whose first operand is two bytes wide.
   */
  lemma {:induction false} ScanSeesTheCuts(f: Function, pos: nat, cuts: seq<nat>, ops: set<OpCode>, t: Text)
    requires V.SegmentedFrom(f.code, pos, cuts)
    ensures t in TargetsFrom(f, pos, ops) <==> NamedSomewhere(f, cuts, ops, t)
    decreases |cuts|
  {
    hide FromByte, OperandLen, ValidUtf8;
    if |cuts| > 1 {
      V.SegmentedTail(f.code, pos, cuts);
      var next := V.Next(f.code, pos);
      ScanSeesTheCuts(f, next, cuts[1..], ops, t);
      assert t in NamedAt(f, pos, ops) <==> Names(f, cuts[0], ops, t);
      if NamedSomewhere(f, cuts[1..], ops, t) {
        var i :| 0 <= i < |cuts[1..]| - 1 && Names(f, cuts[1..][i], ops, t);
        assert Names(f, cuts[i + 1], ops, t);
      }
      if i :| 0 < i < |cuts| - 1 && Names(f, cuts[i], ops, t) {
        assert Names(f, cuts[1..][i - 1], ops, t);
      }
    }
  }

  lemma {:induction false} TargetsComeFromFunctions(functions: seq<Function>, ops: set<OpCode>, t: Text)
    ensures t in Targets(functions, ops) <==> exists f | f in functions :: t in TargetsFrom(f, 0, ops)
  {
    hide TargetsFrom, ValidUtf8;
    if functions != [] {
      var front, last := functions[..|functions| - 1], functions[|functions| - 1];
      assert functions == front + [last];
      TargetsComeFromFunctions(front, ops, t);
      if f :| f in functions && t in TargetsFrom(f, 0, ops) {
        assert f in front || f == last;
      }
      if f :| f in front && t in TargetsFrom(f, 0, ops) {
        assert f in functions;
      }
      assert last in functions;
    }
  }

  /** A static call or a call of the original implementation, by its byte. */
  predicate DispatchesByName(code: Bytes, pos: nat) {
    pos < |code| && (code[pos] == 0x50 || code[pos] == 0x52)
  }

  /** The call at `pos` goes to the function called `t`. */
  predicate GoesTo(f: Function, pos: nat, t: Text) {
    pos + 3 <= |f.code| &&
    var i := f.code[pos + 1] as int * 256 + f.code[pos + 2] as int;
    i < |f.constants| && f.constants[i] == String(t)
  }

  lemma DispatchIff(f: Function, pos: nat)
    ensures V.OpAt(f.code, pos) && V.Op(f.code, pos) in AOT_DISPATCHED <==> DispatchesByName(f.code, pos)
    ensures V.OpAt(f.code, pos) && V.Op(f.code, pos) in AOT_DISPATCHED ==>
              forall t: Text :: V.Complete(f.code, pos) && GoesTo(f, pos, t) <==> Names(f, pos, AOT_DISPATCHED, t)
  {
  }

  /** Every call by name the verifier has accepted has a target, so the scan cannot pass over one. */
  lemma CallsNameStrings(f: Function, pos: nat)
    requires V.Complete(f.code, pos) && V.OperandsOk(f, pos) && DispatchesByName(f.code, pos)
    ensures exists t: Text :: GoesTo(f, pos, t)
  {
    assert V.StringAt(f, V.ReadU16(f.code, pos + 1));
    assert GoesTo(f, pos, f.constants[V.ReadU16(f.code, pos + 1)].s);
  }

  /** Every call by name at an instruction start of `f` has its target in `present`. */
  ghost predicate Resolved(f: Function, cuts: seq<nat>, present: set<Text>) {
    forall i | 0 <= i < |cuts| - 1 && DispatchesByName(f.code, cuts[i]) ::
      exists t | t in present :: GoesTo(f, cuts[i], t)
  }

  lemma ScanResolves(f: Function, cuts: seq<nat>, present: set<Text>)
    requires V.WellFormed(f, cuts)
    ensures TargetsFrom(f, 0, AOT_DISPATCHED) <= present <==> Resolved(f, cuts, present)
  {
    hide FromByte, OperandLen, V.OperandsOk, V.LandsOnStarts, TargetsFrom, ValidUtf8, AOT_DISPATCHED, Names, GoesTo, DispatchesByName;
    var found := TargetsFrom(f, 0, AOT_DISPATCHED);
    if found <= present {
      forall i | 0 <= i < |cuts| - 1 && DispatchesByName(f.code, cuts[i])
        ensures exists t | t in present :: GoesTo(f, cuts[i], t)
      {
        CallsNameStrings(f, cuts[i]);
        var t: Text :| GoesTo(f, cuts[i], t);
        DispatchIff(f, cuts[i]);
        assert Names(f, cuts[i], AOT_DISPATCHED, t);
        ScanSeesTheCuts(f, 0, cuts, AOT_DISPATCHED, t);
      }
    }
    if Resolved(f, cuts, present) {
      forall t | t in found ensures t in present {
        ScanSeesTheCuts(f, 0, cuts, AOT_DISPATCHED, t);
        var i :| 0 <= i < |cuts| - 1 && Names(f, cuts[i], AOT_DISPATCHED, t);
        NamedIsTheTarget(f, cuts[i], t, present);
      }
    }
  }

  lemma NamedIsTheTarget(f: Function, pos: nat, t: Text, present: set<Text>)
    requires Names(f, pos, AOT_DISPATCHED, t)
    ensures DispatchesByName(f.code, pos)
    ensures (exists u | u in present :: GoesTo(f, pos, u)) ==> t in present
  {
    DispatchIff(f, pos);
  }

  /** The gate is exact: on a validated module nothing is missing if and only if every call by name is resolved. */
  lemma GateIsExact(m: Module, present: set<Text>)
    requires Valid(m)
    ensures Targets(m.functions, AOT_DISPATCHED) <= present
        <==> forall f, cuts | f in m.functions && V.WellFormed(f, cuts) :: Resolved(f, cuts, present)
  {
    hide V.Accepts, V.WellFormed, EnvelopeOk, Resolved, Targets, TargetsFrom, ValidUtf8;
    var ops := AOT_DISPATCHED;
    if Targets(m.functions, ops) <= present {
      forall f, cuts | f in m.functions && V.WellFormed(f, cuts) ensures Resolved(f, cuts, present) {
        forall t | t in TargetsFrom(f, 0, ops) ensures t in present { TargetsComeFromFunctions(m.functions, ops, t); }
        ScanResolves(f, cuts, present);
      }
    }
    if forall f, cuts | f in m.functions && V.WellFormed(f, cuts) :: Resolved(f, cuts, present) {
      forall t | t in Targets(m.functions, ops) ensures t in present {
        TargetsComeFromFunctions(m.functions, ops, t);
        var f :| f in m.functions && t in TargetsFrom(f, 0, ops);
        V.AcceptsIffWellFormed(f);
        var cuts :| V.WellFormed(f, cuts);
        ScanResolves(f, cuts, present);
      }
    }
  }

  /** Run-time reading: on a gated module, wherever control can get to, a call by name finds its entry point. */
  lemma GatedCallsAreResolved(m: Module, present: set<Text>, f: Function, path: seq<nat>, k: nat)
    requires Valid(m) && Targets(m.functions, AOT_DISPATCHED) <= present
    requires f in m.functions && V.IsPath(f, path) && k < |path|
    requires DispatchesByName(f.code, path[k])
    ensures exists t | t in present :: GoesTo(f, path[k], t)
  {
    hide V.WellFormed, V.Accepts, EnvelopeOk, V.IsPath, Targets, GoesTo, ValidUtf8, FromByte, AOT_DISPATCHED;
    V.AcceptsIffWellFormed(f);
    var cuts :| V.WellFormed(f, cuts);
    GateIsExact(m, present);
    V.PathsAreSound(f, cuts, path);
    var i :| 0 <= i < |cuts| && cuts[i] == path[k];
    CutsEnd(f, cuts);
    assert i < |cuts| - 1;
  }

  lemma CutsEnd(f: Function, cuts: seq<nat>)
    requires V.WellFormed(f, cuts)
    ensures |cuts| > 0 && cuts[|cuts| - 1] == |f.code|
  {
  }

  // ---------------------------------------------------------------- the gate

  /** `aot_entry_points.json`: not in the release cache, not readable as JSON, or a set of function ids. */
  datatype EntryPoints = Absent | Unreadable | Listed(ids: set<Text>)

  datatype RejectReason = OriginalTargetNotInAot | OtherReason(text: Text)

  datatype RejectDecision = RejectDecision(functionId: Text, sourceLocation: Option<Text>, reason: RejectReason)

  datatype GateError = NoEntryPoints | BadModule(error: ModuleError) | MissingTargets(count: nat)

  function Rejections(targets: seq<Text>): (r: seq<RejectDecision>)
    ensures |r| == |targets| && forall i | 0 <= i < |r| :: r[i] == RejectDecision(targets[i], None, OriginalTargetNotInAot)
  {
    seq(|targets|, i requires 0 <= i < |targets| => RejectDecision(targets[i], None, OriginalTargetNotInAot))
  }

  /** The part of the patch report the gate writes: the reject list of the linker plan, when there is a plan. */
  class PatchReport {
    var rejects: Option<seq<RejectDecision>>

    constructor (rejects: Option<seq<RejectDecision>>)
      ensures this.rejects == rejects
    {
      this.rejects := rejects;
    }
  }

  /**
    A bytecode patch passes when there is no list of entry points, or when every call by name in every function is in
    it. Otherwise the report gains one rejection per missing target, in order, and keeps what it had.
   */
  method GateCallOriginalAotPresence(fromJson: Bytes -> Option<Module>, aot: EntryPoints, payload: Bytes, report: PatchReport)
    returns (r: Result<(), GateError>)
    modifies report
    ensures aot.Absent? ==> r.Ok?
    ensures aot.Unreadable? ==> r == Err(NoEntryPoints)
    ensures aot.Listed? && FromSlice(fromJson, payload).Err? ==> r == Err(BadModule(FromSlice(fromJson, payload).error))
    ensures aot.Listed? && FromSlice(fromJson, payload).Ok? ==>
              (r.Ok? <==> forall f, cuts | f in FromSlice(fromJson, payload).value.functions && V.WellFormed(f, cuts) ::
                            Resolved(f, cuts, aot.ids))
    ensures r.Err? && r.error.MissingTargets? ==>
              && aot.Listed? && FromSlice(fromJson, payload).Ok?
              && exists missing ::
                   && Ascending(missing) && |missing| == r.error.count
                   && SameElements(missing, Targets(FromSlice(fromJson, payload).value.functions, AOT_DISPATCHED) - aot.ids)
                   && report.rejects == match old(report.rejects)
                                        case None => None
                                        case Some(had) => Some(had + Rejections(missing))
    ensures !(r.Err? && r.error.MissingTargets?) ==> report.rejects == old(report.rejects)
  {
    hide Targets, Below, Ascending, Resolved, V.WellFormed, ValidUtf8, EnvelopeOk, Valid, Codec.ReadBinary;
    if aot.Absent? { return Ok(()); }
    if aot.Unreadable? { return Err(NoEntryPoints); }
    var slice := BinaryIo.ReadSlice(fromJson, payload);
    if slice.Err? { return Err(BadModule(slice.error)); }
    var m := slice.value;
    AcceptedIsValid(fromJson, payload);
    GateIsExact(m, aot.ids);
    var missing := MissingAotTargets(m, aot.ids);
    NothingMissing(missing, Targets(m.functions, AOT_DISPATCHED), aot.ids);
    if missing == [] { return Ok(()); }
    if report.rejects.Some? {
      ghost var had := report.rejects.value;
      assert had == had + Rejections(missing)[..0];
      for i := 0 to |missing|
        invariant report.rejects == Some(had + Rejections(missing)[..i])
      {
        var decision := RejectDecision(missing[i], None, OriginalTargetNotInAot);
        report.rejects := Some(report.rejects.value + [decision]);
        assert had + Rejections(missing)[..i + 1] == had + Rejections(missing)[..i] + [decision];
      }
      assert Rejections(missing)[..|missing|] == Rejections(missing);
    }
    return Err(MissingTargets(|missing|));
  }

  lemma NothingMissing(missing: seq<Text>, targets: set<Text>, present: set<Text>)
    requires SameElements(missing, targets - present)
    ensures missing == [] <==> targets <= present
  {
    assert missing != [] ==> missing[0] in missing;
    if missing == [] {
      forall t: Text | t in targets ensures t in present { assert t in missing || t in present; }
    }
  }

  lemma AcceptedIsValid(fromJson: Bytes -> Option<Module>, b: Bytes)
    requires FromSlice(fromJson, b).Ok?
    ensures Valid(FromSlice(fromJson, b).value)
  {
    hide EnvelopeOk, Codec.ReadBinary;
  }
}
