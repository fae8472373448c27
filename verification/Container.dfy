/**
  Reading, validating and writing bytecode modules (crates/fcb_core/src/bytecode.rs): the envelope rules,
  `from_slice`, `to_binary_vec`, and the theorems that tie the codec to the verifier.
 */
module Container {
  import opened Basics
  import opened Text
  import opened Bytecode
  import opened Codec
  import CodecLaws
  import Utf8
  import Verifier

  // ---------------------------------------------------------------- the envelope

  predicate EnvelopeOkFor(f: Function) {
    && !IsBlank(f.name)
    && (f.returnConvention == TAGGED || f.returnConvention == UNBOXED_INT64)
    && f.localCount >= f.paramCount
    && f.code != []
    && (forall e | e in f.sourceMap :: e.bytecodeOffset < |f.code| && !IsBlank(e.sourceLocation))
    && (forall e | e in f.debugLocals :: e.slot < f.paramCount as int + f.localCount as int && !IsBlank(e.name))
  }

  /** Some character of the text is not white space. */
  ghost predicate Shows(s: Text) {
    exists cs, i :: Utf8.Scalars(cs) && s == Utf8.Encode(cs) && 0 <= i < |cs| && !IsWhiteSpace(cs[i])
  }

  lemma ShowsIff(s: Text)
    ensures Shows(s) <==> !IsBlank(s)
  {
    hide IsWhiteSpace, Utf8.Encode, IsBlank;
    var cs := Utf8.ValidIsEncoded(s);
    Utf8.BlankIff(cs);
    if ds, i :| Utf8.Scalars(ds) && s == Utf8.Encode(ds) && 0 <= i < |ds| && !IsWhiteSpace(ds[i]) { Utf8.BlankIff(ds); }
  }

  predicate DistinctNames(functions: seq<Function>) {
    forall i, j | 0 <= i < j < |functions| :: functions[i].name != functions[j].name
  }

  predicate EnvelopeOk(m: Module) {
    && MIN_SUPPORTED_MODULE_VERSION <= m.version <= FORMAT_VERSION
    && m.functions != []
    && (forall f | f in m.functions :: EnvelopeOkFor(f))
    && DistinctNames(m.functions)
  }

  predicate Valid(m: Module) {
    EnvelopeOk(m) && forall f | f in m.functions :: Verifier.Accepts(f)
  }

  /** The rules of the envelope: what a reader of a module may rely on, besides its code. */
  lemma EnvelopeIff(m: Module)
    ensures EnvelopeOk(m) <==>
            && 1 <= m.version <= 3 && |m.functions| > 0
            && (forall i, j | 0 <= i < |m.functions| && 0 <= j < |m.functions| && i != j ::
                  m.functions[i].name != m.functions[j].name)
            && forall f | f in m.functions ::
                 && Shows(f.name) && f.returnConvention in {TAGGED, UNBOXED_INT64}
                 && f.paramCount <= f.localCount && |f.code| > 0
                 && (forall e | e in f.sourceMap :: e.bytecodeOffset < |f.code| && Shows(e.sourceLocation))
                 && (forall e | e in f.debugLocals :: e.slot as int < f.paramCount as int + f.localCount as int && Shows(e.name))
  {
    hide Shows, IsBlank, TAGGED, UNBOXED_INT64, ValidUtf8;
    forall s: Text ensures Shows(s) <==> !IsBlank(s) { ShowsIff(s); }
  }

  datatype ModuleError = Malformed(error: CodecError) | BadJson | BadEnvelope | BadCode | DoesNotFit

  method CheckEnvelopeOf(f: Function) returns (ok: bool)
    ensures ok <==> EnvelopeOkFor(f)
  {
    hide IsBlank, TAGGED, UNBOXED_INT64, ValidUtf8;
    if IsBlank(f.name) { return false; }
    if f.returnConvention != TAGGED && f.returnConvention != UNBOXED_INT64 { return false; }
    if f.localCount < f.paramCount { return false; }
    if f.code == [] { return false; }
    for i := 0 to |f.sourceMap|
      invariant forall j | 0 <= j < i :: f.sourceMap[j].bytecodeOffset < |f.code| && !IsBlank(f.sourceMap[j].sourceLocation)
    {
      if f.sourceMap[i].bytecodeOffset >= |f.code| || IsBlank(f.sourceMap[i].sourceLocation) { return false; }
    }
    var slots := f.paramCount as int + f.localCount as int;
    for i := 0 to |f.debugLocals|
      invariant forall j | 0 <= j < i :: f.debugLocals[j].slot < slots && !IsBlank(f.debugLocals[j].name)
    {
      if f.debugLocals[i].slot >= slots || IsBlank(f.debugLocals[i].name) { return false; }
    }
    return true;
  }

  method ValidateEnvelope(m: Module) returns (ok: bool)
    ensures ok <==> EnvelopeOk(m)
  {
    hide EnvelopeOkFor, ValidUtf8;
    if m.version < MIN_SUPPORTED_MODULE_VERSION || m.version > FORMAT_VERSION { return false; }
    if m.functions == [] { return false; }
    var names: set<Text> := {};
    for i := 0 to |m.functions|
      invariant names == set j | 0 <= j < i :: m.functions[j].name
      invariant forall j | 0 <= j < i :: EnvelopeOkFor(m.functions[j])
      invariant DistinctNames(m.functions[..i])
    {
      var f := m.functions[i];
      var ok := CheckEnvelopeOf(f);
      if !ok { return false; }
      if f.name in names {
        var j :| 0 <= j < i && m.functions[j].name == f.name;
        return false;
      }
      names := names + {f.name};
    }
    assert m.functions[..|m.functions|] == m.functions;
    return true;
  }

  method Validate(m: Module) returns (ok: bool)
    ensures ok <==> Valid(m)
  {
    hide Verifier.Accepts, EnvelopeOk;
    ok := ValidateEnvelope(m);
    if !ok { return; }
    for i := 0 to |m.functions|
      invariant EnvelopeOk(m) && forall j | 0 <= j < i :: Verifier.Accepts(m.functions[j])
    {
      var checked := Verifier.ValidateBytecode(m.functions[i]);
      if checked.Err? { return false; }
    }
  }

  // ---------------------------------------------------------------- reading and writing

  function FromBinary(b: Bytes): Result<Module, ModuleError> {
    match ReadBinary(b)
    case Err(e) => Err(Malformed(e))
    case Ok(m) => if !EnvelopeOk(m) then Err(BadEnvelope) else if !Valid(m) then Err(BadCode) else Ok(m)
  }

  /** Bytes without the magic are JSON, parsed by a library. */
  function FromSlice(fromJson: Bytes -> Option<Module>, b: Bytes): Result<Module, ModuleError> {
    if StartsWith(b, BINARY_MAGIC) then FromBinary(b)
    else
      match fromJson(b)
      case None => Err(BadJson)
      case Some(m) => if !EnvelopeOk(m) then Err(BadEnvelope) else if !Valid(m) then Err(BadCode) else Ok(m)
  }

  /** The writer always prints the current version. */
  function ToBinary(m: Module): Result<Bytes, ModuleError> {
    if !EnvelopeOk(m) then Err(BadEnvelope)
    else if !Valid(m) then Err(BadCode)
    else if !Encodable(FORMAT_VERSION, m.functions) then Err(DoesNotFit)
    else Ok(EncodeModule(FORMAT_VERSION, m.functions, []))
  }

  /** Bytes with the magic are read as a binary, and all others as JSON; either way only a valid module is accepted. */
  lemma SliceIsReadIff(fromJson: Bytes -> Option<Module>, b: Bytes, m: Module)
    ensures FromSlice(fromJson, b) == Ok(m) <==>
            && Valid(m)
            && if [0x46, 0x43, 0x42, 0x4d] <= b then ReadBinary(b) == Ok(m) else fromJson(b) == Some(m)
  {
    hide ReadBinary, EnvelopeOk, Verifier.Accepts;
    assert StartsWith(b, BINARY_MAGIC) <==> [0x46, 0x43, 0x42, 0x4d] <= b;
  }

  lemma VersionDoesNotMatter(m: Module)
    requires Valid(m)
    ensures Valid(m.(version := FORMAT_VERSION)) && EnvelopeOk(m.(version := FORMAT_VERSION))
  {
  }

  lemma StartsWithMagic(version: u32, functions: seq<Function>, rest: Bytes)
    ensures StartsWith(EncodeModule(version, functions, rest), BINARY_MAGIC)
  {
    var tail := BigEndian(4, version) + EncodeList(FunctionEncoder(version), functions, rest);
    assert (BINARY_MAGIC + tail)[..|BINARY_MAGIC|] == BINARY_MAGIC;
  }

  /** Round trip: whatever the writer prints reads back as the same functions, at the current version. */
  lemma WriteThenRead(fromJson: Bytes -> Option<Module>, m: Module)
    requires ToBinary(m).Ok?
    ensures FromSlice(fromJson, ToBinary(m).value) == Ok(m.(version := FORMAT_VERSION))
  {
    hide Verifier.Accepts, EnvelopeOk, Encodable, EncodeModule, ParseModule;
    var b := ToBinary(m).value;
    StartsWithMagic(FORMAT_VERSION, m.functions, []);
    CodecLaws.ModuleRoundTrip(FORMAT_VERSION, m.functions, []);
    VersionDoesNotMatter(m);
  }

  /** Canonical: re-encoding an accepted version-3 binary gives the same bytes. */
  lemma ReadThenWrite(b: Bytes)
    requires FromBinary(b).Ok? && FromBinary(b).value.version == FORMAT_VERSION
    ensures ToBinary(FromBinary(b).value) == Ok(b)
  {
    hide Valid, EnvelopeOk, ReadBinary, EncodeModule;
    CodecLaws.ReadBinaryIsCanonical(b);
    assert Valid(FromBinary(b).value) && EnvelopeOk(FromBinary(b).value);
  }

  lemma OlderFitsNewer(version: u32, f: Function)
    requires EncodableFunction(version, f)
    ensures EncodableFunction(FORMAT_VERSION, f)
  {
  }

  /**
    Upgrade: every accepted binary can be re-encoded, and the version-3 result decodes to the same functions. What
    an older version has no room for reads as synchronous and without debug locals.
   */
  lemma Upgrade(fromJson: Bytes -> Option<Module>, b: Bytes)
    requires FromBinary(b).Ok?
    ensures var m := FromBinary(b).value;
            && ToBinary(m).Ok?
            && FromSlice(fromJson, ToBinary(m).value) == Ok(m.(version := FORMAT_VERSION))
            && (m.version < 3 ==> forall f | f in m.functions :: f.asyncKind == Sync)
            && (m.version < 2 ==> forall f | f in m.functions :: f.debugLocals == [])
  {
    hide Valid, EnvelopeOk, ReadBinary, EncodeModule, FromSlice;
    var m := FromBinary(b).value;
    CodecLaws.ReadBinaryIsCanonical(b);
    assert Valid(m) && EnvelopeOk(m);
    forall f | f in m.functions ensures EncodableFunction(FORMAT_VERSION, f) { OlderFitsNewer(m.version, f); }
    WriteThenRead(fromJson, m);
  }

  /** Prefix-free: in every accepted version, no proper extension of an accepted binary is accepted. */
  lemma AcceptedBinariesArePrefixFree(b: Bytes, more: Bytes)
    requires FromBinary(b).Ok?
    ensures FromBinary(b + more).Ok? <==> more == []
  {
    hide Valid, EnvelopeOk, ReadBinary;
    CodecLaws.ReadBinaryIsPrefixFree(b, more);
    assert b + [] == b;
  }

  const SHORT_NAME: Text := Ascii("a")

  /** A module with one function that only returns. */
  function Smallest(version: u32): Module {
    Module(version, [Function(SHORT_NAME, TAGGED, Sync, 0, 0, [], [0xff], [], [])])
  }

  lemma SmallestIsValid(version: u32)
    requires MIN_SUPPORTED_MODULE_VERSION <= version <= FORMAT_VERSION
    ensures EnvelopeOk(Smallest(version)) && Valid(Smallest(version))
  {
    hide Verifier.Accepts, TAGGED, UNBOXED_INT64;
    var f := Smallest(version).functions[0];
    ReturnIsAccepted(f);
    assert SHORT_NAME == [0x61];
    assert !IsBlank(SHORT_NAME) by { assert FirstLength(SHORT_NAME) == 1 && FirstCodePoint(SHORT_NAME) == 0x61; }
    assert EnvelopeOkFor(f);
  }

  /** The theorems above are about something: in each version this module has a binary that is accepted. */
  lemma SmallestModule(version: u32) returns (b: Bytes)
    requires MIN_SUPPORTED_MODULE_VERSION <= version <= FORMAT_VERSION
    ensures b == EncodeModule(version, Smallest(version).functions, []) && FromBinary(b) == Ok(Smallest(version))
    ensures version == FORMAT_VERSION ==> ToBinary(Smallest(version)) == Ok(b)
  {
    hide EnvelopeOk, Valid, EncodeModule, ParseModule, ValidUtf8, TAGGED, UNBOXED_INT64;
    var m := Smallest(version);
    SmallestIsValid(version);
    b := EncodeModule(version, m.functions, []);
    assert Encodable(version, m.functions) by { assert |SHORT_NAME| == 1; }
    CodecLaws.ModuleRoundTrip(version, m.functions, []);
  }

  lemma ReturnIsAccepted(f: Function)
    requires f.code == [0xff] && f.localCount >= f.paramCount
    ensures Verifier.Accepts(f)
  {
    assert Verifier.Op(f.code, 0) == Return && Verifier.Next(f.code, 0) == 1;
  }
}
