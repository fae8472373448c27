/**
  The reader and writer as they run (crates/fcb_core/src/bytecode.rs): a cursor over a byte slice, an output
  buffer that grows, and the loops over functions and their lists. Each is proved against the functions of `Codec`.
 */
module BinaryIo {
  import opened Basics
  import opened Text
  import opened Bytecode
  import opened Codec
  import opened Container

  // ---------------------------------------------------------------- reading

  /** `r` and what is left unread agree with parsing what was left before. */
  ghost predicate Reads<T(!new)>(parsed: Parsed<T>, r: Result<T, CodecError>, rest: Bytes) {
    match parsed
    case Got(x, after) => r == Ok(x) && rest == after
    case Fail(e) => r == Err(e)
  }

  class BinaryReader {
    const bytes: Bytes
    var pos: nat

    constructor (bytes: Bytes)
      ensures Valid() && this.bytes == bytes && Rest() == bytes
    {
      this.bytes := bytes;
      pos := 0;
    }

    ghost predicate Valid()
      reads this
    {
      pos <= |bytes|
    }

    ghost function Rest(): Bytes
      reads this
      requires Valid()
    {
      bytes[pos..]
    }

    method Bytes(len: nat) returns (r: Result<Bytes, CodecError>)
      requires Valid()
      modifies this
      ensures Valid() && Reads(Take(len, old(Rest())), r, Rest())
      ensures r.Ok? ==> |r.value| == len
    {
      var end := pos + len;
      if end > |bytes| { return Err(Truncated); }
      assert bytes[pos..end] == Rest()[..len] && bytes[end..] == Rest()[len..];
      r := Ok(bytes[pos..end]);
      pos := end;
    }

    method ExpectMagic() returns (r: Result<(), CodecError>)
      requires Valid()
      modifies this
      ensures Valid() && Reads(ParseMagic(old(Rest())), r, Rest())
    {
      var actual := Bytes(4);
      if actual.Err? { return Err(actual.error); }
      if actual.value != BINARY_MAGIC { return Err(BadMagic); }
      return Ok(());
    }

    method U8() returns (r: Result<byte, CodecError>)
      requires Valid()
      modifies this
      ensures Valid() && Reads(ParseByte(old(Rest())), r, Rest())
    {
      var b := Bytes(1);
      if b.Err? { return Err(b.error); }
      return Ok(b.value[0]);
    }

    method U16() returns (r: Result<nat, CodecError>)
      requires Valid()
      modifies this
      ensures Valid() && Reads(ParseUint(2, old(Rest())), r, Rest())
    {
      var b := Bytes(2);
      if b.Err? { return Err(b.error); }
      assert b.value[..1] == [b.value[0]] && b.value[..1][..0] == [];
      assert FromBigEndian(b.value[..1]) == b.value[0] as int;
      return Ok(b.value[0] as int * 256 + b.value[1] as int);
    }

    method U32() returns (r: Result<nat, CodecError>)
      requires Valid()
      modifies this
      ensures Valid() && Reads(ParseUint(4, old(Rest())), r, Rest())
    {
      var b := Bytes(4);
      if b.Err? { return Err(b.error); }
      return Ok(FromBigEndian(b.value));
    }

    method Str() returns (r: Result<Text, CodecError>)
      requires Valid()
      modifies this
      ensures Valid() && Reads(ParseText(old(Rest())), r, Rest())
    {
      var len := U16();
      if len.Err? { return Err(len.error); }
      var b := Bytes(len.value);
      if b.Err? { return Err(b.error); }
      if !ValidUtf8(b.value) { return Err(InvalidUtf8); }
      return Ok(b.value);
    }

    method Constant() returns (r: Result<Constant, CodecError>)
      requires Valid()
      modifies this
      ensures Valid() && Reads(ParseConstant(old(Rest())), r, Rest())
    {
      hide ParseText, AsU64, FromBits, ValidUtf8;
      var tag := U8();
      if tag.Err? { return Err(tag.error); }
      if tag.value == 0 {
        return Ok(Null);
      } else if tag.value == 1 {
        var b := Bytes(8);
        if b.Err? { return Err(b.error); }
        return Ok(Int(FromBits(AsU64(b.value))));
      } else if tag.value == 2 {
        var b := Bytes(8);
        if b.Err? { return Err(b.error); }
        return Ok(Double(AsU64(b.value)));
      } else if tag.value == 3 {
        var v := U8();
        if v.Err? { return Err(v.error); }
        if v.value > 1 { return Err(BadBool(v.value)); }
        return Ok(Bool(v.value == 1));
      } else if tag.value == 4 {
        var s := Str();
        if s.Err? { return Err(s.error); }
        return Ok(String(s.value));
      }
      return Err(BadConstant(tag.value));
    }

    method Constants() returns (r: Result<seq<Constant>, CodecError>)
      requires Valid()
      modifies this
      ensures Valid() && Reads(ParseList(ParseConstant, old(Rest())), r, Rest())
    {
      hide ParseConstant, ParseUint;
      var count := U16();
      if count.Err? { return Err(count.error); }
      var items: seq<Constant> := [];
      ghost var start := Rest();
      for i := 0 to count.value
        invariant Valid()
        invariant ParseMany(ParseConstant, count.value, [], start) == ParseMany(ParseConstant, count.value - i, items, Rest())
      {
        var item := Constant();
        if item.Err? { return Err(item.error); }
        items := items + [item.value];
      }
      return Ok(items);
    }

    method SourceMap() returns (r: Result<seq<SourceMapEntry>, CodecError>)
      requires Valid()
      modifies this
      ensures Valid() && Reads(ParseList(ParseSourceMapEntry, old(Rest())), r, Rest())
    {
      hide ParseText, ParseUint, AsU32, ValidUtf8;
      var count := U16();
      if count.Err? { return Err(count.error); }
      var items: seq<SourceMapEntry> := [];
      ghost var start := Rest();
      for i := 0 to count.value
        invariant Valid()
        invariant ParseMany(ParseSourceMapEntry, count.value, [], start)
               == ParseMany(ParseSourceMapEntry, count.value - i, items, Rest())
      {
        var offset := Bytes(4);
        if offset.Err? { return Err(offset.error); }
        var location := Str();
        if location.Err? { return Err(location.error); }
        items := items + [SourceMapEntry(AsU32(offset.value), location.value)];
      }
      return Ok(items);
    }

    method DebugLocals(version: u32) returns (r: Result<seq<DebugLocalEntry>, CodecError>)
      requires Valid()
      modifies this
      ensures Valid() && Reads(ParseDebugLocals(version, old(Rest())), r, Rest())
    {
      hide ParseText, ParseUint, AsU16, ValidUtf8;
      if version < 2 { return Ok([]); }
      var count := U16();
      if count.Err? { return Err(count.error); }
      var items: seq<DebugLocalEntry> := [];
      ghost var start := Rest();
      for i := 0 to count.value
        invariant Valid()
        invariant ParseMany(ParseDebugLocal, count.value, [], start) == ParseMany(ParseDebugLocal, count.value - i, items, Rest())
      {
        var slot := Bytes(2);
        if slot.Err? { return Err(slot.error); }
        var name := Str();
        if name.Err? { return Err(name.error); }
        items := items + [DebugLocalEntry(AsU16(slot.value), name.value)];
      }
      return Ok(items);
    }

    method Header(version: u32) returns (r: Result<Function, CodecError>)
      requires Valid()
      modifies this
      ensures Valid() && Reads(ParseHeader(version, old(Rest())), r, Rest())
    {
      hide ParseText, ParseByte, ValidUtf8, TAGGED, UNBOXED_INT64;
      var name := Str();
      if name.Err? { return Err(name.error); }
      var convention := U8();
      if convention.Err? { return Err(convention.error); }
      if convention.value > 1 { return Err(BadConvention(convention.value)); }
      var kind := Sync;
      if version >= 3 {
        var tag := U8();
        if tag.Err? { return Err(tag.error); }
        if tag.value > 3 { return Err(BadAsyncKind(tag.value)); }
        kind := AsyncOf(tag.value);
      }
      var params := U8();
      if params.Err? { return Err(params.error); }
      var locals := U8();
      if locals.Err? { return Err(locals.error); }
      return Ok(Bytecode.Function(name.value, if convention.value == 0 then TAGGED else UNBOXED_INT64, kind,
                                  params.value, locals.value, [], [], [], []));
    }

    method Function(version: u32) returns (r: Result<Function, CodecError>)
      requires Valid()
      modifies this
      ensures Valid() && Reads(ParseFunction(version, old(Rest())), r, Rest())
    {
      hide ParseHeader, ParseList, ParseUint, Take, ParseDebugLocals;
      var header := Header(version);
      if header.Err? { return Err(header.error); }
      var constants := Constants();
      if constants.Err? { return Err(constants.error); }
      var codeLen := U32();
      if codeLen.Err? { return Err(codeLen.error); }
      var code := Bytes(codeLen.value);
      if code.Err? { return Err(code.error); }
      var sourceMap := SourceMap();
      if sourceMap.Err? { return Err(sourceMap.error); }
      var debugLocals := DebugLocals(version);
      if debugLocals.Err? { return Err(debugLocals.error); }
      return Ok(header.value.(constants := constants.value, code := code.value,
                              sourceMap := sourceMap.value, debugLocals := debugLocals.value));
    }

    method Functions(version: u32) returns (r: Result<seq<Function>, CodecError>)
      requires Valid()
      modifies this
      ensures Valid() && Reads(ParseList(FunctionParser(version), old(Rest())), r, Rest())
    {
      hide ParseFunction, ParseUint;
      var count := U16();
      if count.Err? { return Err(count.error); }
      var items: seq<Function> := [];
      ghost var start := Rest();
      for i := 0 to count.value
        invariant Valid()
        invariant ParseMany(FunctionParser(version), count.value, [], start)
               == ParseMany(FunctionParser(version), count.value - i, items, Rest())
      {
        var item := Function(version);
        if item.Err? { return Err(item.error); }
        items := items + [item.value];
      }
      return Ok(items);
    }

    method Module() returns (r: Result<Module, CodecError>)
      requires Valid()
      modifies this
      ensures Valid() && Reads(ParseModule(old(Rest())), r, Rest())
    {
      hide ParseMagic, ParseList, Take, AsU32;
      var magic := ExpectMagic();
      if magic.Err? { return Err(magic.error); }
      var v := Bytes(4);
      if v.Err? { return Err(v.error); }
      var version := AsU32(v.value);
      var functions := Functions(version);
      if functions.Err? { return Err(functions.error); }
      return Ok(Bytecode.Module(version, functions.value));
    }

    method Finish() returns (r: Result<(), CodecError>)
      requires Valid()
      ensures r == if Rest() == [] then Ok(()) else Err(TrailingData)
    {
      return if pos != |bytes| then Err(TrailingData) else Ok(());
    }
  }

  /** `read_binary` */
  method ReadModule(bytes: Bytes) returns (r: Result<Module, CodecError>)
    ensures r == ReadBinary(bytes)
  {
    hide ParseModule;
    var reader := new BinaryReader(bytes);
    var m := reader.Module();
    if m.Err? { return m; }
    var finished := reader.Finish();
    if finished.Err? { return Err(finished.error); }
    return m;
  }

  method ReadSlice(fromJson: Bytes -> Option<Module>, bytes: Bytes) returns (r: Result<Module, ModuleError>)
    ensures r == FromSlice(fromJson, bytes)
  {
    hide EnvelopeOk, Valid, ReadBinary;
    var m;
    if StartsWith(bytes, BINARY_MAGIC) {
      var parsed := ReadModule(bytes);
      if parsed.Err? { return Err(Malformed(parsed.error)); }
      m := parsed.value;
    } else {
      var parsed := fromJson(bytes);
      if parsed.None? { return Err(BadJson); }
      m := parsed.value;
    }
    var envelope := ValidateEnvelope(m);
    if !envelope { return Err(BadEnvelope); }
    var valid := Validate(m);
    return if valid then Ok(m) else Err(BadCode);
  }

  // ---------------------------------------------------------------- writing

  /**
    The output buffer. Each method takes, as a ghost, the bytes that will follow what it writes, so that
    the buffer followed by `tail` is described by the encoders of `Codec`.
   */
  class BinaryWriter {
    var out: Bytes

    constructor ()
      ensures out == []
    {
      out := [];
    }

    method Raw(b: Bytes, ghost tail: Bytes)
      modifies this
      ensures out + tail == old(out) + (b + tail)
    {
      out := out + b;
      assert old(out) + b + tail == old(out) + (b + tail);
    }

    method Number(width: nat, value: nat, ghost tail: Bytes) returns (ok: bool)
      modifies this
      ensures ok <==> value < Pow256(width)
      ensures ok ==> out + tail == old(out) + (BigEndian(width, value) + tail)
    {
      if value >= Pow256(width) { return false; }
      Raw(BigEndian(width, value), tail);
      return true;
    }

    method Str(s: Text, ghost tail: Bytes) returns (ok: bool)
      modifies this
      ensures ok <==> Fits16(s)
      ensures ok ==> out + tail == old(out) + EncodeText(s, tail)
    {
      Powers();
      ok := Number(2, |s|, s + tail);
      if ok { Raw(s, tail); }
    }

    method Constant(c: Constant, ghost tail: Bytes) returns (ok: bool)
      modifies this
      ensures ok <==> EncodableConstant(c)
      ensures ok ==> out + tail == old(out) + EncodeConstant(c, tail)
    {
      hide BigEndian, EncodeText, ValidUtf8, ToBits;
      ok := true;
      match c
      case Null =>
        Raw([0], tail);
      case Int(v) =>
        Raw([1], BigEndian(8, ToBits(v)) + tail);
        Raw(BigEndian(8, ToBits(v)), tail);
      case Double(bits) =>
        Raw([2], BigEndian(8, bits) + tail);
        Raw(BigEndian(8, bits), tail);
      case Bool(v) =>
        Raw([3], [if v then 1 else 0] + tail);
        Raw([if v then 1 else 0], tail);
      case String(s) =>
        Raw([4], EncodeText(s, tail));
        ok := Str(s, tail);
    }

    method Constants(cs: seq<Constant>, ghost tail: Bytes) returns (ok: bool)
      modifies this
      ensures ok <==> Fits16(cs) && forall c | c in cs :: EncodableConstant(c)
      ensures ok ==> out + tail == old(out) + EncodeList(EncodeConstant, cs, tail)
    {
      hide EncodeConstant, EncodableConstant, ValidUtf8;
      Powers();
      ok := Number(2, |cs|, EncodeMany(EncodeConstant, cs, tail));
      if !ok { return; }
      assert cs[0..] == cs;
      for i := 0 to |cs|
        invariant forall j | 0 <= j < i :: EncodableConstant(cs[j])
        invariant out + EncodeMany(EncodeConstant, cs[i..], tail) == old(out) + EncodeList(EncodeConstant, cs, tail)
      {
        assert cs[i..][1..] == cs[i + 1..];
        ok := Constant(cs[i], EncodeMany(EncodeConstant, cs[i + 1..], tail));
        if !ok { return; }
      }
      return true;
    }

    method SourceMap(es: seq<SourceMapEntry>, ghost tail: Bytes) returns (ok: bool)
      modifies this
      ensures ok <==> Fits16(es) && forall e | e in es :: Fits16(e.sourceLocation)
      ensures ok ==> out + tail == old(out) + EncodeList(EncodeSourceMapEntry, es, tail)
    {
      hide EncodeText, BigEndian, ValidUtf8;
      Powers();
      ok := Number(2, |es|, EncodeMany(EncodeSourceMapEntry, es, tail));
      if !ok { return; }
      assert es[0..] == es;
      for i := 0 to |es|
        invariant forall j | 0 <= j < i :: Fits16(es[j].sourceLocation)
        invariant out + EncodeMany(EncodeSourceMapEntry, es[i..], tail) == old(out) + EncodeList(EncodeSourceMapEntry, es, tail)
      {
        assert es[i..][1..] == es[i + 1..];
        ghost var next := EncodeMany(EncodeSourceMapEntry, es[i + 1..], tail);
        Raw(BigEndian(4, es[i].bytecodeOffset), EncodeText(es[i].sourceLocation, next));
        ok := Str(es[i].sourceLocation, next);
        if !ok { return; }
      }
      return true;
    }

    method DebugLocals(es: seq<DebugLocalEntry>, ghost tail: Bytes) returns (ok: bool)
      modifies this
      ensures ok <==> Fits16(es) && forall e | e in es :: Fits16(e.name)
      ensures ok ==> out + tail == old(out) + EncodeList(EncodeDebugLocal, es, tail)
    {
      hide EncodeText, BigEndian, ValidUtf8;
      Powers();
      ok := Number(2, |es|, EncodeMany(EncodeDebugLocal, es, tail));
      if !ok { return; }
      assert es[0..] == es;
      for i := 0 to |es|
        invariant forall j | 0 <= j < i :: Fits16(es[j].name)
        invariant out + EncodeMany(EncodeDebugLocal, es[i..], tail) == old(out) + EncodeList(EncodeDebugLocal, es, tail)
      {
        assert es[i..][1..] == es[i + 1..];
        ghost var next := EncodeMany(EncodeDebugLocal, es[i + 1..], tail);
        Raw(BigEndian(2, es[i].slot), EncodeText(es[i].name, next));
        ok := Str(es[i].name, next);
        if !ok { return; }
      }
      return true;
    }

    method Header(f: Function, ghost tail: Bytes) returns (ok: bool)
      modifies this
      ensures ok <==> Fits16(f.name) && (f.returnConvention == TAGGED || f.returnConvention == UNBOXED_INT64)
      ensures ok ==> out + tail == old(out) + EncodeHeader(FORMAT_VERSION, f, tail)
    {
      hide EncodeText, ValidUtf8, ConventionTag, AsyncTag;
      ghost var b4 := [f.localCount] + tail;
      ghost var b3 := [f.paramCount] + b4;
      ghost var b2 := [AsyncTag(f.asyncKind)] + b3;
      ok := Str(f.name, [ConventionTag(f.returnConvention)] + b2);
      if !ok { return; }
      if f.returnConvention != TAGGED && f.returnConvention != UNBOXED_INT64 { return false; }
      Raw([ConventionTag(f.returnConvention)], b2);
      Raw([AsyncTag(f.asyncKind)], b3);
      Raw([f.paramCount], b4);
      Raw([f.localCount], tail);
    }

    method Function(f: Function, ghost tail: Bytes) returns (ok: bool)
      modifies this
      ensures ok <==> EncodableFunction(FORMAT_VERSION, f)
      ensures ok ==> out + tail == old(out) + EncodeFunction(FORMAT_VERSION, f, tail)
    {
      hide EncodeHeader, EncodeList, BigEndian, ValidUtf8, EncodableConstant;
      ghost var b4 := EncodeList(EncodeDebugLocal, f.debugLocals, tail);
      ghost var b3 := EncodeList(EncodeSourceMapEntry, f.sourceMap, b4);
      ghost var b1 := BigEndian(4, |f.code|) + (f.code + b3);
      Powers();
      ok := Header(f, EncodeBody(FORMAT_VERSION, f, tail));
      if !ok { return; }
      ok := Constants(f.constants, b1);
      if !ok { return; }
      ok := Number(4, |f.code|, f.code + b3);
      if !ok { return; }
      Raw(f.code, b3);
      ok := SourceMap(f.sourceMap, b4);
      if !ok { return; }
      ok := DebugLocals(f.debugLocals, tail);
    }
  }

  /** `to_binary_vec` */
  method ToBinaryVec(m: Module) returns (r: Result<Bytes, ModuleError>)
    ensures r == ToBinary(m)
  {
    hide EncodeFunction, EncodableFunction, BigEndian, ValidUtf8, EnvelopeOk, EnvelopeOkFor;
    var envelope := ValidateEnvelope(m);
    if !envelope { return Err(BadEnvelope); }
    var valid := Validate(m);
    if !valid { return Err(BadCode); }
    ghost var encode := FunctionEncoder(FORMAT_VERSION);
    ghost var list := EncodeList(encode, m.functions, []);
    var w := new BinaryWriter();
    w.Raw(BINARY_MAGIC, BigEndian(4, FORMAT_VERSION) + list);
    w.Raw(BigEndian(4, FORMAT_VERSION), list);
    Powers();
    var ok := w.Number(2, |m.functions|, EncodeMany(encode, m.functions, []));
    if !ok { return Err(DoesNotFit); }
    assert m.functions[0..] == m.functions;
    for i := 0 to |m.functions|
      invariant forall j | 0 <= j < i :: EncodableFunction(FORMAT_VERSION, m.functions[j])
      invariant w.out + EncodeMany(encode, m.functions[i..], []) == EncodeModule(FORMAT_VERSION, m.functions, [])
    {
      assert m.functions[i..][1..] == m.functions[i + 1..];
      ok := w.Function(m.functions[i], EncodeMany(encode, m.functions[i + 1..], []));
      if !ok { return Err(DoesNotFit); }
    }
    assert w.out + [] == w.out;
    return Ok(w.out);
  }
}
