/** The container byte by byte: what two small modules look like on the wire. */
module CodecBytes {
  import opened Basics
  import opened Text
  import opened Bytecode
  import opened Codec
  import CodecLaws
  import Container

  lemma TwoBytes(v: u16)
    ensures BigEndian(2, v) == [v / 256, v % 256]
  {
    assert BigEndian(1, v / 256) == BigEndian(0, v / 256 / 256) + [v / 256 % 256];
  }

  lemma FourBytes(v: u32)
    ensures BigEndian(4, v) == [v / 0x100_0000, v / 0x1_0000 % 256, v / 256 % 256, v % 256]
  {
    assert BigEndian(4, v) == BigEndian(3, v / 256) + [v % 256];
    assert BigEndian(3, v / 256) == BigEndian(2, v / 256 / 256) + [v / 256 % 256];
    TwoBytes(v / 256 / 256);
  }

  lemma Horner(b: Bytes, k: nat)
    requires k < |b|
    ensures FromBigEndian(b[..k + 1]) == FromBigEndian(b[..k]) * 256 + b[k]
  {
    assert b[..k + 1][..k] == b[..k];
  }

  lemma FirstFour(b: Bytes)
    requires |b| >= 4
    ensures FromBigEndian(b[..4]) == 0x100_0000 * b[0] as int + 0x1_0000 * b[1] as int + 0x100 * b[2] as int + b[3] as int
  {
    hide FromBigEndian;
    Empty();
    assert b[..0] == [];
    Horner(b, 0);
    Horner(b, 1);
    Horner(b, 2);
    Horner(b, 3);
  }

  lemma EightBytes(b: Bytes)
    requires |b| == 8
    ensures BigEndian(8, FromBigEndian(b)) == b
    ensures FromBigEndian(b) ==
            0x1_0000_0000 * FromBigEndian(b[..4])
            + 0x100_0000 * b[4] as int + 0x1_0000 * b[5] as int + 0x100 * b[6] as int + b[7] as int
  {
    hide FromBigEndian;
    BigEndianCanonical(b);
    Horner(b, 4);
    Horner(b, 5);
    Horner(b, 6);
    Horner(b, 7);
    assert b[..8] == b;
  }

  lemma Empty()
    ensures FromBigEndian([]) == 0
  {
  }

  /** One byte for each return convention and each kind of function. */
  lemma Tags()
    ensures ConventionTag(TAGGED) == 0 && ConventionTag(UNBOXED_INT64) == 1
    ensures AsyncTag(Sync) == 0 && AsyncTag(AsyncFuture) == 1 && AsyncTag(AsyncStar) == 2 && AsyncTag(SyncStar) == 3
    ensures AsyncOf(0) == Sync && AsyncOf(1) == AsyncFuture && AsyncOf(2) == AsyncStar && AsyncOf(3) == SyncStar
  {
    ConventionsDiffer();
  }

  lemma Spelling()
    ensures TAGGED == [0x74, 0x61, 0x67, 0x67, 0x65, 0x64]
    ensures UNBOXED_INT64 == [0x75, 0x6e, 0x62, 0x6f, 0x78, 0x65, 0x64, 0x5f, 0x69, 0x6e, 0x74, 0x36, 0x34]
  {
    hide ValidUtf8;
  }

  lemma NoneEncoded<T>(encode: (T, Bytes) -> Bytes, rest: Bytes)
    ensures EncodeList(encode, [], rest) == [0, 0] + rest
  {
    TwoBytes(0);
  }

  lemma OneEncoded<T>(encode: (T, Bytes) -> Bytes, x: T, rest: Bytes)
    ensures EncodeMany(encode, [x], rest) == encode(x, rest)
    ensures EncodeList(encode, [x], rest) == [0, 1] + encode(x, rest)
  {
    TwoBytes(1);
  }

  // ---------------------------------------------------------------- the smallest module

  /** From its constants on: none, one byte of code, no source map and, from version 2 on, no debug locals. */
  function SmallestBody(version: u32, rest: Bytes): Bytes {
    [0, 0] + ([0, 0, 0, 1] + ([0xff] + ([0, 0] + (if version >= 2 then [0, 0] + rest else rest))))
  }

  /** The function's name, its convention and, from version 3 on, its kind, and its two counts. */
  function SmallestFunction(version: u32, rest: Bytes): Bytes {
    var counts := [0] + ([0] + SmallestBody(version, rest));
    [0, 1] + ([0x61] + ([0] + (if version >= 3 then [0] + counts else counts)))
  }

  function SmallestBytes(version: u32): Bytes
    requires version <= 3
  {
    [0x46, 0x43, 0x42, 0x4d] + ([0, 0, 0, version] + ([0, 1] + SmallestFunction(version, [])))
  }

  lemma SmallestBodyBytes(version: u32, rest: Bytes)
    ensures EncodeBody(version, Container.Smallest(version).functions[0], rest) == SmallestBody(version, rest)
  {
    hide BigEndian, EncodeList, TAGGED;
    FourBytes(1);
    NoneEncoded(EncodeDebugLocal, rest);
    var locals := if version >= 2 then [0, 0] + rest else rest;
    NoneEncoded(EncodeSourceMapEntry, locals);
    NoneEncoded(EncodeConstant, [0, 0, 0, 1] + ([0xff] + ([0, 0] + locals)));
  }

  lemma SmallestFunctionBytes(version: u32, rest: Bytes)
    ensures EncodeFunction(version, Container.Smallest(version).functions[0], rest) == SmallestFunction(version, rest)
  {
    hide BigEndian, EncodeBody, SmallestBody, ConventionTag, AsyncTag, ValidUtf8, TAGGED, Container.SHORT_NAME;
    SmallestBodyBytes(version, rest);
    TwoBytes(1);
    Tags();
    Names();
  }

  lemma Names()
    ensures Container.SHORT_NAME == [0x61] && F_NAME == [0x66]
  {
  }

  /** What the smallest module looks like in each version, and that these very bytes are accepted. */
  lemma SmallestIsEncoded(version: u32)
    requires 1 <= version <= 3
    ensures EncodeModule(version, Container.Smallest(version).functions, []) == SmallestBytes(version)
    ensures Container.FromBinary(SmallestBytes(version)) == Ok(Container.Smallest(version))
  {
    hide BigEndian, EncodeFunction, SmallestFunction, EncodeList, TAGGED, Container.FromBinary;
    var fs := Container.Smallest(version).functions;
    FourBytes(version);
    SmallestFunctionBytes(version, []);
    OneEncoded(FunctionEncoder(version), fs[0], []);
    var b := Container.SmallestModule(version);
  }

  // ---------------------------------------------------------------- one constant of each kind

  const F_NAME: Text := Ascii("f")
  const HI: Text := Ascii("hi")
  const PLACE: Text := Ascii("s")
  const LOCAL: Text := Ascii("d")

  function OneOfEach(): Function {
    Bytecode.Function(F_NAME, UNBOXED_INT64, SyncStar, 1, 2,
                      [Null, Int(-2), Double(0x0102030405060708), Constant.Bool(true), Constant.String(HI)], [0xff],
                      [SourceMapEntry(0x00010203, PLACE)], [DebugLocalEntry(0x0102, LOCAL)])
  }

  lemma ConstantBytes(rest: Bytes)
    ensures EncodeConstant(Null, rest) == [0] + rest
    ensures EncodeConstant(Int(-2), rest) == [1] + ([0xff, 0xff, 0xff, 0xff, 0xff, 0xff, 0xff, 0xfe] + rest)
    ensures EncodeConstant(Double(0x0102030405060708), rest) == [2] + ([1, 2, 3, 4, 5, 6, 7, 8] + rest)
    ensures EncodeConstant(Constant.Bool(true), rest) == [3] + ([1] + rest)
    ensures EncodeConstant(Constant.Bool(false), rest) == [3] + ([0] + rest)
    ensures EncodeConstant(Constant.String(HI), rest) == [4] + ([0, 2] + ([0x68, 0x69] + rest))
  {
    hide BigEndian, FromBigEndian;
    assert ToBits(-2) == 0xffff_ffff_ffff_fffe;
    FirstFour([0xff, 0xff, 0xff, 0xff, 0xff, 0xff, 0xff, 0xfe]);
    EightBytes([0xff, 0xff, 0xff, 0xff, 0xff, 0xff, 0xff, 0xfe]);
    FirstFour([1, 2, 3, 4, 5, 6, 7, 8]);
    EightBytes([1, 2, 3, 4, 5, 6, 7, 8]);
    TwoBytes(2);
    assert HI == [0x68, 0x69];
  }

  lemma EntryBytes(rest: Bytes)
    ensures EncodeSourceMapEntry(SourceMapEntry(0x00010203, PLACE), rest) == [0, 1, 2, 3] + ([0, 1] + ([0x73] + rest))
    ensures EncodeDebugLocal(DebugLocalEntry(0x0102, LOCAL), rest) == [1, 2] + ([0, 1] + ([0x64] + rest))
  {
    hide BigEndian;
    FourBytes(0x00010203);
    TwoBytes(0x0102);
    TwoBytes(1);
    assert PLACE == [0x73] && LOCAL == [0x64];
  }

  function ConstantsPart(rest: Bytes): Bytes {
    [0, 5] + ([0]
    + ([1] + ([0xff, 0xff, 0xff, 0xff, 0xff, 0xff, 0xff, 0xfe]
    + ([2] + ([1, 2, 3, 4, 5, 6, 7, 8]
    + ([3] + ([1]
    + ([4] + ([0, 2] + ([0x68, 0x69] + rest))))))))))
  }

  function MapsPart(rest: Bytes): Bytes {
    [0, 1] + ([0, 1, 2, 3] + ([0, 1] + ([0x73]
    + ([0, 1] + ([1, 2] + ([0, 1] + ([0x64] + rest)))))))
  }

  lemma ConstantsPartBytes(rest: Bytes)
    ensures EncodeList(EncodeConstant, OneOfEach().constants, rest) == ConstantsPart(rest)
  {
    hide BigEndian, EncodeConstant, EncodeMany, ValidUtf8, HI, F_NAME, PLACE, LOCAL, UNBOXED_INT64;
    var cs := OneOfEach().constants;
    TwoBytes(5);
    ManyFive(EncodeConstant, cs[0], cs[1], cs[2], cs[3], cs[4], rest);
    ConstantBytes(rest);
    var e4 := EncodeConstant(cs[4], rest);
    ConstantBytes(e4);
    var e3 := EncodeConstant(cs[3], e4);
    ConstantBytes(e3);
    var e2 := EncodeConstant(cs[2], e3);
    ConstantBytes(e2);
    ConstantBytes(EncodeConstant(cs[1], e2));
  }

  lemma ManyFive<T>(encode: (T, Bytes) -> Bytes, a: T, b: T, c: T, d: T, e: T, rest: Bytes)
    ensures EncodeMany(encode, [a, b, c, d, e], rest) ==
            encode(a, encode(b, encode(c, encode(d, encode(e, rest)))))
  {
    assert [a, b, c, d, e][1..] == [b, c, d, e] && [b, c, d, e][1..] == [c, d, e] && [c, d, e][1..] == [d, e] && [d, e][1..] == [e];
    OneEncoded(encode, e, rest);
    assert EncodeMany(encode, [d, e], rest) == encode(d, EncodeMany(encode, [e], rest));
    assert EncodeMany(encode, [c, d, e], rest) == encode(c, EncodeMany(encode, [d, e], rest));
    assert EncodeMany(encode, [b, c, d, e], rest) == encode(b, EncodeMany(encode, [c, d, e], rest));
  }

  lemma MapsPartBytes(rest: Bytes)
    ensures EncodeList(EncodeSourceMapEntry, OneOfEach().sourceMap, EncodeList(EncodeDebugLocal, OneOfEach().debugLocals, rest))
         == MapsPart(rest)
  {
    hide BigEndian, EncodeSourceMapEntry, EncodeDebugLocal, EncodeList;
    var f := OneOfEach();
    EntryBytes(rest);
    OneEncoded(EncodeDebugLocal, f.debugLocals[0], rest);
    var locals := EncodeList(EncodeDebugLocal, f.debugLocals, rest);
    EntryBytes(locals);
    OneEncoded(EncodeSourceMapEntry, f.sourceMap[0], locals);
  }

  /** Every field of a function in its place, in the current version. */
  lemma OneOfEachIsEncoded(rest: Bytes)
    ensures EncodeFunction(3, OneOfEach(), rest) ==
            [0, 1] + ([0x66] + ([1] + ([3] + ([1] + ([2] + ConstantsPart([0, 0, 0, 1] + ([0xff] + MapsPart(rest))))))))
  {
    hide BigEndian, EncodeList, ConstantsPart, MapsPart, ConventionTag, ValidUtf8, F_NAME, HI, PLACE, LOCAL, TAGGED, UNBOXED_INT64;
    TwoBytes(1);
    FourBytes(1);
    Tags();
    Names();
    MapsPartBytes(rest);
    ConstantsPartBytes([0, 0, 0, 1] + ([0xff] + MapsPart(rest)));
  }
}
