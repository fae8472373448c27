/** The laws of the binary container: printing and parsing undo each other, and the format is canonical and prefix-free. */
module CodecLaws {
  import opened Basics
  import opened Text
  import opened Bytecode
  import opened Codec

  // ---------------------------------------------------------------- fields, parse after encode

  lemma TakeEncoded(x: Bytes, rest: Bytes)
    ensures Take(|x|, x + rest) == Got(x, rest)
  {
    assert (x + rest)[..|x|] == x && (x + rest)[|x|..] == rest;
  }

  lemma UintRoundTrip(n: nat, v: nat, rest: Bytes)
    requires v < Pow256(n)
    ensures ParseUint(n, BigEndian(n, v) + rest) == Got(v, rest)
  {
    TakeEncoded(BigEndian(n, v), rest);
    BigEndianRoundTrip(n, v);
  }

  lemma TextRoundTrip(s: Text, rest: Bytes)
    requires Fits16(s)
    ensures ParseText(EncodeText(s, rest)) == Got(s, rest)
  {
    Powers();
    UintRoundTrip(2, |s|, s + rest);
    TakeEncoded(s, rest);
  }

  lemma U64RoundTrip(v: u64, rest: Bytes)
    ensures Take(8, BigEndian(8, v) + rest) == Got(BigEndian(8, v), rest) && AsU64(BigEndian(8, v)) == v
  {
    TakeEncoded(BigEndian(8, v), rest);
    Powers();
    BigEndianRoundTrip(8, v);
  }

  lemma ConstantRoundTrip(c: Constant, rest: Bytes)
    requires EncodableConstant(c)
    ensures ParseConstant(EncodeConstant(c, rest)) == Got(c, rest)
  {
    hide FromBigEndian, BigEndian, ParseText, EncodeText;
    match c
    case Null => assert ([0] + rest)[1..] == rest;
    case Int(v) =>
      var tail := BigEndian(8, ToBits(v)) + rest;
      assert ([1] + tail)[1..] == tail;
      U64RoundTrip(ToBits(v), rest);
    case Double(bits) =>
      var tail := BigEndian(8, bits) + rest;
      assert ([2] + tail)[1..] == tail;
      U64RoundTrip(bits, rest);
    case Bool(v) =>
      var tail := [if v then 1 else 0] + rest;
      assert ([3] + tail)[1..] == tail && tail[1..] == rest;
    case String(s) =>
      assert ([4] + EncodeText(s, rest))[1..] == EncodeText(s, rest);
      TextRoundTrip(s, rest);
  }

  lemma SourceMapRoundTrip(e: SourceMapEntry, rest: Bytes)
    requires Fits16(e.sourceLocation)
    ensures ParseSourceMapEntry(EncodeSourceMapEntry(e, rest)) == Got(e, rest)
  {
    hide ParseText, EncodeText;
    TakeEncoded(BigEndian(4, e.bytecodeOffset), EncodeText(e.sourceLocation, rest));
    Powers();
    BigEndianRoundTrip(4, e.bytecodeOffset);
    TextRoundTrip(e.sourceLocation, rest);
  }

  lemma DebugLocalRoundTrip(e: DebugLocalEntry, rest: Bytes)
    requires Fits16(e.name)
    ensures ParseDebugLocal(EncodeDebugLocal(e, rest)) == Got(e, rest)
  {
    hide ParseText, EncodeText;
    TakeEncoded(BigEndian(2, e.slot), EncodeText(e.name, rest));
    Powers();
    BigEndianRoundTrip(2, e.slot);
    TextRoundTrip(e.name, rest);
  }

  lemma {:induction false} ManyRoundTrip<T>(encode: (T, Bytes) -> Bytes, parse: Bytes -> Parsed<T>, xs: seq<T>, acc: seq<T>, rest: Bytes)
    requires forall x, r: Bytes | x in xs :: parse(encode(x, r)) == Got(x, r)
    ensures ParseMany(parse, |xs|, acc, EncodeMany(encode, xs, rest)) == Got(acc + xs, rest)
  {
    if xs == [] {
      assert acc + xs == acc;
    } else {
      assert xs[0] in xs && forall x | x in xs[1..] :: x in xs;
      ManyRoundTrip(encode, parse, xs[1..], acc + [xs[0]], rest);
      assert acc + [xs[0]] + xs[1..] == acc + xs;
    }
  }

  lemma ListRoundTrip<T>(encode: (T, Bytes) -> Bytes, parse: Bytes -> Parsed<T>, xs: seq<T>, rest: Bytes)
    requires Fits16(xs) && forall x, r: Bytes | x in xs :: parse(encode(x, r)) == Got(x, r)
    ensures ParseList(parse, EncodeList(encode, xs, rest)) == Got(xs, rest)
  {
    Powers();
    UintRoundTrip(2, |xs|, EncodeMany(encode, xs, rest));
    ManyRoundTrip(encode, parse, xs, [], rest);
    assert [] + xs == xs;
  }

  // ---------------------------------------------------------------- functions and modules, parse after encode

  lemma ByteRoundTrip(x: byte, rest: Bytes)
    ensures ParseByte([x] + rest) == Got(x, rest)
  {
    assert ([x] + rest)[1..] == rest;
  }

  lemma HeaderRoundTrip(version: u32, f: Function, rest: Bytes)
    requires EncodableFunction(version, f)
    ensures ParseHeader(version, EncodeHeader(version, f, rest))
         == Got(f.(constants := [], code := [], sourceMap := [], debugLocals := []), rest)
  {
    hide ParseText, EncodeText, ParseByte, TAGGED, UNBOXED_INT64;
    ConventionsDiffer();
    var b4 := [f.localCount] + rest;
    var b3 := [f.paramCount] + b4;
    var b2 := if version >= 3 then [AsyncTag(f.asyncKind)] + b3 else b3;
    TextRoundTrip(f.name, [ConventionTag(f.returnConvention)] + b2);
    ByteRoundTrip(ConventionTag(f.returnConvention), b2);
    ByteRoundTrip(AsyncTag(f.asyncKind), b3);
    ByteRoundTrip(f.paramCount, b4);
    ByteRoundTrip(f.localCount, rest);
  }

  lemma BodyRoundTrip(version: u32, header: Function, f: Function, rest: Bytes)
    requires EncodableFunction(version, f)
    ensures ParseBody(version, header, EncodeBody(version, f, rest))
         == Got(header.(constants := f.constants, code := f.code, sourceMap := f.sourceMap, debugLocals := f.debugLocals), rest)
  {
    hide ParseList, EncodeList, ParseUint, Take, BigEndian, TAGGED, UNBOXED_INT64;
    var b4 := if version >= 2 then EncodeList(EncodeDebugLocal, f.debugLocals, rest) else rest;
    var b3 := EncodeList(EncodeSourceMapEntry, f.sourceMap, b4);
    var b2 := f.code + b3;
    var b1 := BigEndian(4, |f.code|) + b2;
    forall e, r: Bytes | e in f.debugLocals ensures ParseDebugLocal(EncodeDebugLocal(e, r)) == Got(e, r) { DebugLocalRoundTrip(e, r); }
    ListRoundTrip(EncodeDebugLocal, ParseDebugLocal, f.debugLocals, rest);
    forall e, r: Bytes | e in f.sourceMap ensures ParseSourceMapEntry(EncodeSourceMapEntry(e, r)) == Got(e, r) { SourceMapRoundTrip(e, r); }
    ListRoundTrip(EncodeSourceMapEntry, ParseSourceMapEntry, f.sourceMap, b4);
    forall c, r: Bytes | c in f.constants ensures ParseConstant(EncodeConstant(c, r)) == Got(c, r) { ConstantRoundTrip(c, r); }
    ListRoundTrip(EncodeConstant, ParseConstant, f.constants, b1);
    Powers();
    UintRoundTrip(4, |f.code|, b2);
    TakeEncoded(f.code, b3);
  }

  lemma FunctionRoundTrip(version: u32, f: Function, rest: Bytes)
    requires EncodableFunction(version, f)
    ensures ParseFunction(version, EncodeFunction(version, f, rest)) == Got(f, rest)
  {
    hide ParseHeader, EncodeHeader, ParseBody, EncodeBody, EncodableFunction;
    var header := f.(constants := [], code := [], sourceMap := [], debugLocals := []);
    HeaderRoundTrip(version, f, EncodeBody(version, f, rest));
    BodyRoundTrip(version, header, f, rest);
  }

  lemma MagicRoundTrip(rest: Bytes)
    ensures ParseMagic(BINARY_MAGIC + rest) == Got((), rest)
  {
    assert |BINARY_MAGIC| == 4;
    TakeEncoded(BINARY_MAGIC, rest);
  }

  lemma VersionRoundTrip(version: u32, rest: Bytes)
    ensures Take(4, BigEndian(4, version) + rest) == Got(BigEndian(4, version), rest)
    ensures AsU32(BigEndian(4, version)) == version
  {
    TakeEncoded(BigEndian(4, version), rest);
    Powers();
    BigEndianRoundTrip(4, version);
  }

  /** What was encoded parses back, whatever follows. */
  lemma ModuleRoundTrip(version: u32, functions: seq<Function>, rest: Bytes)
    requires Encodable(version, functions)
    ensures ParseModule(EncodeModule(version, functions, rest)) == Got(Module(version, functions), rest)
  {
    hide ParseMagic, BINARY_MAGIC, BigEndian, ParseList, EncodeList, EncodableFunction, EncodeFunction, ParseFunction, Take;
    var b2 := EncodeList(FunctionEncoder(version), functions, rest);
    MagicRoundTrip(BigEndian(4, version) + b2);
    VersionRoundTrip(version, b2);
    forall f, r: Bytes | f in functions
      ensures FunctionParser(version)(FunctionEncoder(version)(f, r)) == Got(f, r)
    {
      FunctionRoundTrip(version, f, r);
    }
    ListRoundTrip(FunctionEncoder(version), FunctionParser(version), functions, rest);
  }

  // ---------------------------------------------------------------- encode after parse

  lemma TakeCanonical(n: nat, b: Bytes)
    ensures Take(n, b).Got? ==> |Take(n, b).value| == n && b == Take(n, b).value + Take(n, b).rest
  {
  }

  lemma UintCanonical(n: nat, b: Bytes)
    ensures var p := ParseUint(n, b); p.Got? ==> p.value < Pow256(n) && b == BigEndian(n, p.value) + p.rest
  {
    if ParseUint(n, b).Got? {
      BigEndianCanonical(b[..n]);
      assert b == b[..n] + b[n..];
    }
  }

  lemma TextCanonical(b: Bytes)
    ensures var p := ParseText(b); p.Got? ==> Fits16(p.value) && b == EncodeText(p.value, p.rest)
  {
    hide FromBigEndian, BigEndian;
    UintCanonical(2, b);
    Powers();
    if ParseUint(2, b).Got? { TakeCanonical(ParseUint(2, b).value, ParseUint(2, b).rest); }
  }

  lemma ByteCanonical(b: Bytes)
    ensures ParseByte(b).Got? ==> b == [ParseByte(b).value] + ParseByte(b).rest
  {
  }

  lemma WordCanonical(tag: byte, b: Bytes)
    requires 1 <= tag <= 2
    ensures var p := ParseConstant([tag] + b);
            p.Got? ==> EncodableConstant(p.value) && [tag] + b == EncodeConstant(p.value, p.rest)
  {
    hide FromBigEndian, BigEndian, AsU64, FromBits, ToBits;
    ByteRoundTrip(tag, b);
    TakeCanonical(8, b);
    if Take(8, b).Got? {
      U64Canonical(Take(8, b).value);
    }
  }

  lemma ConstantCanonical(b: Bytes)
    ensures var p := ParseConstant(b); p.Got? ==> EncodableConstant(p.value) && b == EncodeConstant(p.value, p.rest)
  {
    hide FromBigEndian, BigEndian, ParseText, EncodeText, Take;
    ByteCanonical(b);
    if ParseByte(b).Got? {
      var tag, b1 := ParseByte(b).value, ParseByte(b).rest;
      if 1 <= tag <= 2 {
        WordCanonical(tag, b1);
      } else if tag == 3 {
        ByteCanonical(b1);
      } else if tag == 4 {
        TextCanonical(b1);
      }
    }
  }

  lemma U64Canonical(b: Bytes)
    requires |b| == 8
    ensures BigEndian(8, AsU64(b)) == b && ToBits(FromBits(AsU64(b))) == AsU64(b)
  {
    BigEndianCanonical(b);
  }

  lemma SourceMapCanonical(b: Bytes)
    ensures var p := ParseSourceMapEntry(b); p.Got? ==> Fits16(p.value.sourceLocation) && b == EncodeSourceMapEntry(p.value, p.rest)
  {
    hide ParseText, EncodeText;
    TakeCanonical(4, b);
    if Take(4, b).Got? {
      BigEndianCanonical(Take(4, b).value);
      TextCanonical(Take(4, b).rest);
    }
  }

  lemma DebugLocalCanonical(b: Bytes)
    ensures var p := ParseDebugLocal(b); p.Got? ==> Fits16(p.value.name) && b == EncodeDebugLocal(p.value, p.rest)
  {
    hide ParseText, EncodeText;
    TakeCanonical(2, b);
    if Take(2, b).Got? {
      BigEndianCanonical(Take(2, b).value);
      TextCanonical(Take(2, b).rest);
    }
  }

  lemma {:induction false} ManyCanonical<T>(encode: (T, Bytes) -> Bytes, parse: Bytes -> Parsed<T>, ok: T -> bool,
                                            n: nat, acc: seq<T>, b: Bytes)
    requires forall c: Bytes | parse(c).Got? :: ok(parse(c).value) && c == encode(parse(c).value, parse(c).rest)
    ensures var p := ParseMany(parse, n, acc, b);
            p.Got? ==> |p.value| == |acc| + n && acc <= p.value && b == EncodeMany(encode, p.value[|acc|..], p.rest)
                       && forall x | x in p.value[|acc|..] :: ok(x)
    decreases n
  {
    if n > 0 && parse(b).Got? {
      var x, longer := parse(b).value, acc + [parse(b).value];
      ManyCanonical(encode, parse, ok, n - 1, longer, parse(b).rest);
      var p := ParseMany(parse, n, acc, b);
      if p.Got? {
        assert p.value[|acc|] == longer[|acc|] == x;
        assert p.value[|acc|..] == [x] + p.value[|longer|..];
      }
    }
  }

  lemma ListCanonical<T>(encode: (T, Bytes) -> Bytes, parse: Bytes -> Parsed<T>, ok: T -> bool, b: Bytes)
    requires forall c: Bytes | parse(c).Got? :: ok(parse(c).value) && c == encode(parse(c).value, parse(c).rest)
    ensures var p := ParseList(parse, b);
            p.Got? ==> Fits16(p.value) && b == EncodeList(encode, p.value, p.rest) && forall x | x in p.value :: ok(x)
  {
    UintCanonical(2, b);
    Powers();
    if ParseUint(2, b).Got? {
      var n, rest := ParseUint(2, b).value, ParseUint(2, b).rest;
      ManyCanonical(encode, parse, ok, n, [], rest);
      var p := ParseMany(parse, n, [], rest);
      if p.Got? { assert p.value[0..] == p.value; }
    }
  }

  lemma HeaderCanonical(version: u32, b: Bytes)
    ensures var p := ParseHeader(version, b);
            p.Got? ==> EncodableFunction(version, p.value) && b == EncodeHeader(version, p.value, p.rest)
  {
    hide ParseText, EncodeText, ParseByte, TAGGED, UNBOXED_INT64;
    ConventionsDiffer();
    TextCanonical(b);
    if ParseText(b).Got? {
      var b1 := ParseText(b).rest;
      ByteCanonical(b1);
      if ParseByte(b1).Got? && ParseByte(b1).value <= 1 {
        var b2 := ParseByte(b1).rest;
        ByteCanonical(b2);
        if ParseAsync(version, b2).Got? {
          var b3 := ParseAsync(version, b2).rest;
          ByteCanonical(b3);
          if ParseByte(b3).Got? { ByteCanonical(ParseByte(b3).rest); }
        }
      }
    }
  }

  lemma DebugLocalsCanonical(version: u32, b: Bytes)
    ensures var p := ParseDebugLocals(version, b);
            p.Got? ==> Fits16(p.value) && (forall e | e in p.value :: Fits16(e.name)) && (version < 2 ==> p.value == [])
                       && b == (if version >= 2 then EncodeList(EncodeDebugLocal, p.value, p.rest) else p.rest)
  {
    forall c: Bytes | ParseDebugLocal(c).Got?
      ensures Fits16(ParseDebugLocal(c).value.name) && c == EncodeDebugLocal(ParseDebugLocal(c).value, ParseDebugLocal(c).rest)
    {
      DebugLocalCanonical(c);
    }
    ListCanonical(EncodeDebugLocal, ParseDebugLocal, (e: DebugLocalEntry) => Fits16(e.name), b);
  }

  lemma SourceMapsCanonical(b: Bytes)
    ensures var p := ParseList(ParseSourceMapEntry, b);
            p.Got? ==> Fits16(p.value) && (forall e | e in p.value :: Fits16(e.sourceLocation))
                       && b == EncodeList(EncodeSourceMapEntry, p.value, p.rest)
  {
    forall c: Bytes | ParseSourceMapEntry(c).Got?
      ensures Fits16(ParseSourceMapEntry(c).value.sourceLocation)
      ensures c == EncodeSourceMapEntry(ParseSourceMapEntry(c).value, ParseSourceMapEntry(c).rest)
    {
      SourceMapCanonical(c);
    }
    ListCanonical(EncodeSourceMapEntry, ParseSourceMapEntry, (e: SourceMapEntry) => Fits16(e.sourceLocation), b);
  }

  lemma ConstantsCanonical(b: Bytes)
    ensures var p := ParseList(ParseConstant, b);
            p.Got? ==> Fits16(p.value) && (forall c | c in p.value :: EncodableConstant(c)) && b == EncodeList(EncodeConstant, p.value, p.rest)
  {
    forall c: Bytes | ParseConstant(c).Got?
      ensures EncodableConstant(ParseConstant(c).value) && c == EncodeConstant(ParseConstant(c).value, ParseConstant(c).rest)
    {
      ConstantCanonical(c);
    }
    ListCanonical(EncodeConstant, ParseConstant, EncodableConstant, b);
  }

  lemma BodyCanonical(version: u32, header: Function, b: Bytes)
    requires EncodableFunction(version, header)
    ensures var p := ParseBody(version, header, b);
            p.Got? ==> EncodableFunction(version, p.value) && b == EncodeBody(version, p.value, p.rest)
                       && p.value.(constants := header.constants, code := header.code, sourceMap := header.sourceMap,
                                   debugLocals := header.debugLocals) == header
  {
    hide ParseList, EncodeList, ParseUint, Take, BigEndian, TAGGED, UNBOXED_INT64, ParseDebugLocals;
    ConstantsCanonical(b);
    if ParseList(ParseConstant, b).Got? {
      var b1 := ParseList(ParseConstant, b).rest;
      UintCanonical(4, b1);
      Powers();
      if ParseUint(4, b1).Got? {
        var n, b2 := ParseUint(4, b1).value, ParseUint(4, b1).rest;
        TakeCanonical(n, b2);
        if Take(n, b2).Got? {
          var b3 := Take(n, b2).rest;
          SourceMapsCanonical(b3);
          if ParseList(ParseSourceMapEntry, b3).Got? { DebugLocalsCanonical(version, ParseList(ParseSourceMapEntry, b3).rest); }
        }
      }
    }
  }

  lemma FunctionCanonical(version: u32, b: Bytes)
    ensures var p := ParseFunction(version, b);
            p.Got? ==> EncodableFunction(version, p.value) && b == EncodeFunction(version, p.value, p.rest)
  {
    hide ParseHeader, ParseBody, EncodeBody, EncodableFunction;
    HeaderCanonical(version, b);
    if ParseHeader(version, b).Got? {
      BodyCanonical(version, ParseHeader(version, b).value, ParseHeader(version, b).rest);
    }
  }

  /** Whatever is accepted is exactly what the encoder of its version prints for it: the format is canonical. */
  lemma ModuleCanonical(b: Bytes)
    ensures var p := ParseModule(b);
            p.Got? ==> Encodable(p.value.version, p.value.functions) && b == EncodeModule(p.value.version, p.value.functions, p.rest)
  {
    hide ParseList, EncodeList, EncodableFunction, EncodeFunction, ParseFunction;
    TakeCanonical(4, b);
    if ParseMagic(b).Got? {
      var b1 := ParseMagic(b).rest;
      TakeCanonical(4, b1);
      if Take(4, b1).Got? {
        BigEndianCanonical(Take(4, b1).value);
        var version := AsU32(Take(4, b1).value);
        forall c: Bytes | FunctionParser(version)(c).Got?
          ensures var p := FunctionParser(version)(c);
                  EncodableFunction(version, p.value) && c == FunctionEncoder(version)(p.value, p.rest)
        {
          FunctionCanonical(version, c);
        }
        ListCanonical(FunctionEncoder(version), FunctionParser(version), (f: Function) => EncodableFunction(version, f), Take(4, b1).rest);
      }
    }
  }

  // ---------------------------------------------------------------- what follows does not matter

  /** Encoding before `rest` and then appending `more` is encoding before `rest + more`. */
  lemma TextExtends(s: Text, rest: Bytes, more: Bytes)
    ensures EncodeText(s, rest) + more == EncodeText(s, rest + more)
  {
    assert s + rest + more == s + (rest + more);
  }

  lemma Prepend(front: Bytes, rest: Bytes, more: Bytes)
    ensures front + rest + more == front + (rest + more)
  {
  }

  lemma ConstantExtends(c: Constant, rest: Bytes, more: Bytes)
    ensures EncodeConstant(c, rest) + more == EncodeConstant(c, rest + more)
  {
    hide BigEndian, EncodeText;
    match c
    case Null => Prepend([0], rest, more);
    case Int(v) => Prepend(BigEndian(8, ToBits(v)), rest, more); Prepend([1], BigEndian(8, ToBits(v)) + rest, more);
    case Double(bits) => Prepend(BigEndian(8, bits), rest, more); Prepend([2], BigEndian(8, bits) + rest, more);
    case Bool(v) => var tag: Bytes := [if v then 1 else 0]; Prepend(tag, rest, more); Prepend([3], tag + rest, more);
    case String(s) => TextExtends(s, rest, more); Prepend([4], EncodeText(s, rest), more);
  }

  lemma {:induction false} ManyExtends<T>(encode: (T, Bytes) -> Bytes, xs: seq<T>, rest: Bytes, more: Bytes)
    requires forall x, r: Bytes | x in xs :: encode(x, r) + more == encode(x, r + more)
    ensures EncodeMany(encode, xs, rest) + more == EncodeMany(encode, xs, rest + more)
  {
    if xs != [] {
      assert xs[0] in xs && forall x | x in xs[1..] :: x in xs;
      ManyExtends(encode, xs[1..], rest, more);
    }
  }

  lemma ListExtends<T>(encode: (T, Bytes) -> Bytes, xs: seq<T>, rest: Bytes, more: Bytes)
    requires forall x, r: Bytes | x in xs :: encode(x, r) + more == encode(x, r + more)
    ensures EncodeList(encode, xs, rest) + more == EncodeList(encode, xs, rest + more)
  {
    ManyExtends(encode, xs, rest, more);
    Prepend(BigEndian(2, |xs|), EncodeMany(encode, xs, rest), more);
  }

  lemma BodyExtends(version: u32, f: Function, rest: Bytes, more: Bytes)
    ensures EncodeBody(version, f, rest) + more == EncodeBody(version, f, rest + more)
  {
    hide EncodeList, BigEndian, EncodeText;
    var b4 := if version >= 2 then EncodeList(EncodeDebugLocal, f.debugLocals, rest) else rest;
    var b3 := EncodeList(EncodeSourceMapEntry, f.sourceMap, b4);
    var b2 := f.code + b3;
    forall e, r: Bytes | e in f.debugLocals ensures EncodeDebugLocal(e, r) + more == EncodeDebugLocal(e, r + more) {
      TextExtends(e.name, r, more);
      Prepend(BigEndian(2, e.slot), EncodeText(e.name, r), more);
    }
    ListExtends(EncodeDebugLocal, f.debugLocals, rest, more);
    forall e, r: Bytes | e in f.sourceMap ensures EncodeSourceMapEntry(e, r) + more == EncodeSourceMapEntry(e, r + more) {
      TextExtends(e.sourceLocation, r, more);
      Prepend(BigEndian(4, e.bytecodeOffset), EncodeText(e.sourceLocation, r), more);
    }
    ListExtends(EncodeSourceMapEntry, f.sourceMap, b4, more);
    Prepend(f.code, b3, more);
    Prepend(BigEndian(4, |f.code|), b2, more);
    forall c, r: Bytes | c in f.constants ensures EncodeConstant(c, r) + more == EncodeConstant(c, r + more) { ConstantExtends(c, r, more); }
    ListExtends(EncodeConstant, f.constants, BigEndian(4, |f.code|) + b2, more);
  }

  lemma HeaderExtends(version: u32, f: Function, rest: Bytes, more: Bytes)
    ensures EncodeHeader(version, f, rest) + more == EncodeHeader(version, f, rest + more)
  {
    hide EncodeText;
    var b4 := [f.localCount] + rest;
    var b3 := [f.paramCount] + b4;
    var b2 := if version >= 3 then [AsyncTag(f.asyncKind)] + b3 else b3;
    Prepend([f.localCount], rest, more);
    Prepend([f.paramCount], b4, more);
    Prepend([AsyncTag(f.asyncKind)], b3, more);
    Prepend([ConventionTag(f.returnConvention)], b2, more);
    TextExtends(f.name, [ConventionTag(f.returnConvention)] + b2, more);
  }

  lemma ModuleExtends(version: u32, functions: seq<Function>, rest: Bytes, more: Bytes)
    ensures EncodeModule(version, functions, rest) + more == EncodeModule(version, functions, rest + more)
  {
    hide EncodeList, BigEndian, EncodeHeader, EncodeBody, BINARY_MAGIC;
    forall f, r: Bytes | f in functions
      ensures FunctionEncoder(version)(f, r) + more == FunctionEncoder(version)(f, r + more)
    {
      BodyExtends(version, f, r, more);
      HeaderExtends(version, f, EncodeBody(version, f, r), more);
    }
    var list := EncodeList(FunctionEncoder(version), functions, rest);
    ListExtends(FunctionEncoder(version), functions, rest, more);
    Prepend(BigEndian(4, version), list, more);
    Prepend(BINARY_MAGIC, BigEndian(4, version) + list, more);
  }

  /** A module that parses still parses to the same module when more bytes follow. */
  lemma ParseIgnoresWhatFollows(b: Bytes, more: Bytes)
    requires ParseModule(b).Got?
    ensures ParseModule(b + more) == Got(ParseModule(b).value, ParseModule(b).rest + more)
  {
    hide EncodeModule, Encodable;
    var p := ParseModule(b);
    ModuleCanonical(b);
    ModuleExtends(p.value.version, p.value.functions, p.rest, more);
    ModuleRoundTrip(p.value.version, p.value.functions, p.rest + more);
  }

  /** Prefix-free: no proper extension of an accepted byte string is accepted, in any version. */
  lemma ReadBinaryIsPrefixFree(b: Bytes, more: Bytes)
    requires ReadBinary(b).Ok?
    ensures ReadBinary(b + more).Ok? <==> more == []
  {
    hide ParseModule;
    ParseIgnoresWhatFollows(b, more);
    assert b + [] == b;
  }

  /** Reading is injective: an accepted byte string is the print of what it reads as. */
  lemma ReadBinaryIsCanonical(b: Bytes)
    requires ReadBinary(b).Ok?
    ensures var m := ReadBinary(b).value;
            Encodable(m.version, m.functions) && b == EncodeModule(m.version, m.functions, [])
  {
    ModuleCanonical(b);
  }
}
