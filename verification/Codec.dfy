/**
  The binary container, as functions. An encoder is given the bytes that follow, so that encoding `x` before
  `rest` and parsing undo each other without rearranging concatenations; a parser returns what it leaves unread.
  Encoders exist for every container version, although the writer only produces the current one.
 */
module Codec {
  import opened Basics
  import opened Text
  import opened Bytecode

  const BINARY_MAGIC: Bytes := [0x46, 0x43, 0x42, 0x4d]

  datatype CodecError =
    | BadMagic | Truncated | BadConvention(tag: byte) | BadAsyncKind(tag: byte) | BadBool(tag: byte)
    | BadConstant(tag: byte) | InvalidUtf8 | TrailingData

  datatype Parsed<+T> = Fail(error: CodecError) | Got(value: T, rest: Bytes)

  // ---------------------------------------------------------------- integers

  function Pow256(n: nat): nat { if n == 0 then 1 else 256 * Pow256(n - 1) }

  /** `to_be_bytes` of an `n`-byte integer. */
  function BigEndian(n: nat, v: nat): (b: Bytes)
    ensures |b| == n
  {
    if n == 0 then [] else BigEndian(n - 1, v / 256) + [v % 256]
  }

  /** `from_be_bytes` */
  function FromBigEndian(b: Bytes): nat {
    if b == [] then 0 else FromBigEndian(b[..|b| - 1]) * 256 + b[|b| - 1]
  }

  lemma {:induction false} BigEndianRoundTrip(n: nat, v: nat)
    requires v < Pow256(n)
    ensures FromBigEndian(BigEndian(n, v)) == v
  {
    if n > 0 {
      BigEndianRoundTrip(n - 1, v / 256);
      assert BigEndian(n, v)[..n - 1] == BigEndian(n - 1, v / 256);
    }
  }

  lemma {:induction false} BigEndianCanonical(b: Bytes)
    ensures FromBigEndian(b) < Pow256(|b|)
    ensures BigEndian(|b|, FromBigEndian(b)) == b
  {
    if b != [] {
      BigEndianCanonical(b[..|b| - 1]);
      var high := FromBigEndian(b[..|b| - 1]);
      assert (high * 256 + b[|b| - 1]) / 256 == high && (high * 256 + b[|b| - 1]) % 256 == b[|b| - 1];
    }
  }

  lemma Powers()
    ensures Pow256(1) == 0x100 && Pow256(2) == 0x1_0000 && Pow256(4) == 0x1_0000_0000
    ensures Pow256(8) == 0x1_0000_0000_0000_0000
  {
    assert Pow256(2) == 256 * Pow256(1) && Pow256(3) == 256 * Pow256(2) && Pow256(4) == 256 * Pow256(3);
    assert Pow256(5) == 256 * Pow256(4) && Pow256(6) == 256 * Pow256(5);
    assert Pow256(7) == 256 * Pow256(6) && Pow256(8) == 256 * Pow256(7);
  }

  /** Two's complement of an `i64`. */
  function ToBits(v: i64): u64 { if v < 0 then v + 0x1_0000_0000_0000_0000 else v }

  function FromBits(u: u64): i64 { if u >= 0x8000_0000_0000_0000 then u - 0x1_0000_0000_0000_0000 else u }

  // ---------------------------------------------------------------- fields

  function Take(n: nat, b: Bytes): Parsed<Bytes> {
    if |b| < n then Fail(Truncated) else Got(b[..n], b[n..])
  }

  function ParseUint(n: nat, b: Bytes): Parsed<nat> {
    match Take(n, b)
    case Fail(e) => Fail(e)
    case Got(bytes, rest) => Got(FromBigEndian(bytes), rest)
  }

  function ParseByte(b: Bytes): Parsed<byte> {
    if b == [] then Fail(Truncated) else Got(b[0], b[1..])
  }

  function EncodeText(s: Text, rest: Bytes): Bytes {
    BigEndian(2, |s|) + (s + rest)
  }

  function ParseText(b: Bytes): Parsed<Text> {
    match ParseUint(2, b)
    case Fail(e) => Fail(e)
    case Got(len, afterLen) =>
      match Take(len, afterLen)
      case Fail(e) => Fail(e)
      case Got(bytes, rest) => if ValidUtf8(bytes) then Got(bytes, rest) else Fail(InvalidUtf8)
  }

  function EncodeConstant(c: Constant, rest: Bytes): Bytes {
    match c
    case Null => [0] + rest
    case Int(v) => [1] + (BigEndian(8, ToBits(v)) + rest)
    case Double(bits) => [2] + (BigEndian(8, bits) + rest)
    case Bool(v) => [3] + ([if v then 1 else 0] + rest)
    case String(s) => [4] + EncodeText(s, rest)
  }

  function ParseConstant(b: Bytes): Parsed<Constant> {
    match ParseByte(b)
    case Fail(e) => Fail(e)
    case Got(tag, afterTag) =>
      if tag == 0 then Got(Null, afterTag)
      else if tag == 1 || tag == 2 then
        (match Take(8, afterTag)
         case Fail(e) => Fail(e)
         case Got(bytes, rest) =>
           var u := AsU64(bytes);
           Got(if tag == 1 then Int(FromBits(u)) else Double(u), rest))
      else if tag == 3 then
        (match ParseByte(afterTag)
         case Fail(e) => Fail(e)
         case Got(v, rest) => if v <= 1 then Got(Bool(v == 1), rest) else Fail(BadBool(v)))
      else if tag == 4 then
        (match ParseText(afterTag)
         case Fail(e) => Fail(e)
         case Got(s, rest) => Got(String(s), rest))
      else Fail(BadConstant(tag))
  }

  function AsU64(b: Bytes): u64
    requires |b| == 8
  {
    BigEndianCanonical(b);
    Powers();
    FromBigEndian(b)
  }

  function AsU32(b: Bytes): u32
    requires |b| == 4
  {
    BigEndianCanonical(b);
    Powers();
    FromBigEndian(b)
  }

  function AsU16(b: Bytes): u16
    requires |b| == 2
  {
    BigEndianCanonical(b);
    Powers();
    FromBigEndian(b)
  }

  function EncodeSourceMapEntry(e: SourceMapEntry, rest: Bytes): Bytes {
    BigEndian(4, e.bytecodeOffset) + EncodeText(e.sourceLocation, rest)
  }

  function ParseSourceMapEntry(b: Bytes): Parsed<SourceMapEntry> {
    match Take(4, b)
    case Fail(e) => Fail(e)
    case Got(offset, afterOffset) =>
      match ParseText(afterOffset)
      case Fail(e) => Fail(e)
      case Got(location, rest) => Got(SourceMapEntry(AsU32(offset), location), rest)
  }

  function EncodeDebugLocal(e: DebugLocalEntry, rest: Bytes): Bytes {
    BigEndian(2, e.slot) + EncodeText(e.name, rest)
  }

  function ParseDebugLocal(b: Bytes): Parsed<DebugLocalEntry> {
    match Take(2, b)
    case Fail(e) => Fail(e)
    case Got(slot, afterSlot) =>
      match ParseText(afterSlot)
      case Fail(e) => Fail(e)
      case Got(name, rest) => Got(DebugLocalEntry(AsU16(slot), name), rest)
  }

  // ---------------------------------------------------------------- lists

  function EncodeMany<T>(encode: (T, Bytes) -> Bytes, xs: seq<T>, rest: Bytes): Bytes {
    if xs == [] then rest else encode(xs[0], EncodeMany(encode, xs[1..], rest))
  }

  /** `for _ in 0..n { items.push(parse()?) }` */
  function ParseMany<T>(parse: Bytes -> Parsed<T>, n: nat, acc: seq<T>, b: Bytes): Parsed<seq<T>>
    decreases n
  {
    if n == 0 then Got(acc, b)
    else
      match parse(b)
      case Fail(e) => Fail(e)
      case Got(x, rest) => ParseMany(parse, n - 1, acc + [x], rest)
  }

  /** A list preceded by its 16-bit length. */
  function EncodeList<T>(encode: (T, Bytes) -> Bytes, xs: seq<T>, rest: Bytes): Bytes {
    BigEndian(2, |xs|) + EncodeMany(encode, xs, rest)
  }

  function ParseList<T>(parse: Bytes -> Parsed<T>, b: Bytes): Parsed<seq<T>> {
    match ParseUint(2, b)
    case Fail(e) => Fail(e)
    case Got(n, rest) => ParseMany(parse, n, [], rest)
  }

  // ---------------------------------------------------------------- functions and modules

  function ConventionTag(convention: Text): byte { if convention == TAGGED then 0 else 1 }

  function AsyncTag(kind: AsyncKind): byte {
    match kind case Sync => 0 case AsyncFuture => 1 case AsyncStar => 2 case SyncStar => 3
  }

  function AsyncOf(tag: byte): AsyncKind {
    match tag case 0 => Sync case 1 => AsyncFuture case 2 => AsyncStar case _ => SyncStar
  }

  /** What follows the header: constants, code, source map and, from version 2 on, debug locals. */
  function EncodeBody(version: u32, f: Function, rest: Bytes): Bytes {
    var locals := if version >= 2 then EncodeList(EncodeDebugLocal, f.debugLocals, rest) else rest;
    var maps := EncodeList(EncodeSourceMapEntry, f.sourceMap, locals);
    EncodeList(EncodeConstant, f.constants, BigEndian(4, |f.code|) + (f.code + maps))
  }

  function EncodeHeader(version: u32, f: Function, rest: Bytes): Bytes {
    var counts := [f.paramCount] + ([f.localCount] + rest);
    EncodeText(f.name, [ConventionTag(f.returnConvention)] + (if version >= 3 then [AsyncTag(f.asyncKind)] + counts else counts))
  }

  function EncodeFunction(version: u32, f: Function, rest: Bytes): Bytes {
    EncodeHeader(version, f, EncodeBody(version, f, rest))
  }

  function ParseAsync(version: u32, b: Bytes): Parsed<AsyncKind> {
    if version < 3 then Got(Sync, b)
    else
      match ParseByte(b)
      case Fail(e) => Fail(e)
      case Got(tag, rest) => if tag <= 3 then Got(AsyncOf(tag), rest) else Fail(BadAsyncKind(tag))
  }

  /** The header, as a function whose body is still empty. */
  function ParseHeader(version: u32, b: Bytes): Parsed<Function> {
    match ParseText(b)
    case Fail(e) => Fail(e)
    case Got(name, b1) =>
      match ParseByte(b1)
      case Fail(e) => Fail(e)
      case Got(tag, b2) =>
        if tag > 1 then Fail(BadConvention(tag))
        else
          match ParseAsync(version, b2)
          case Fail(e) => Fail(e)
          case Got(kind, b3) =>
            match ParseByte(b3)
            case Fail(e) => Fail(e)
            case Got(params, b4) =>
              match ParseByte(b4)
              case Fail(e) => Fail(e)
              case Got(locals, rest) =>
                Got(Function(name, if tag == 0 then TAGGED else UNBOXED_INT64, kind, params, locals, [], [], [], []), rest)
  }

  function ParseDebugLocals(version: u32, b: Bytes): Parsed<seq<DebugLocalEntry>> {
    if version >= 2 then ParseList(ParseDebugLocal, b) else Got([], b)
  }

  function ParseBody(version: u32, header: Function, b: Bytes): Parsed<Function> {
    match ParseList(ParseConstant, b)
    case Fail(e) => Fail(e)
    case Got(constants, b1) =>
      match ParseUint(4, b1)
      case Fail(e) => Fail(e)
      case Got(codeLen, b2) =>
        match Take(codeLen, b2)
        case Fail(e) => Fail(e)
        case Got(code, b3) =>
          match ParseList(ParseSourceMapEntry, b3)
          case Fail(e) => Fail(e)
          case Got(sourceMap, b4) =>
            match ParseDebugLocals(version, b4)
            case Fail(e) => Fail(e)
            case Got(debugLocals, rest) =>
              Got(header.(constants := constants, code := code, sourceMap := sourceMap, debugLocals := debugLocals), rest)
  }

  function ParseFunction(version: u32, b: Bytes): Parsed<Function> {
    match ParseHeader(version, b)
    case Fail(e) => Fail(e)
    case Got(header, rest) => ParseBody(version, header, rest)
  }

  function FunctionEncoder(version: u32): (Function, Bytes) -> Bytes {
    (f, rest) => EncodeFunction(version, f, rest)
  }

  function FunctionParser(version: u32): Bytes -> Parsed<Function> {
    b => ParseFunction(version, b)
  }

  function EncodeModule(version: u32, functions: seq<Function>, rest: Bytes): Bytes {
    BINARY_MAGIC + (BigEndian(4, version) + EncodeList(FunctionEncoder(version), functions, rest))
  }

  function ParseMagic(b: Bytes): Parsed<()> {
    match Take(4, b)
    case Fail(e) => Fail(e)
    case Got(magic, rest) => if magic == BINARY_MAGIC then Got((), rest) else Fail(BadMagic)
  }

  function ParseModule(b: Bytes): Parsed<Module> {
    match ParseMagic(b)
    case Fail(e) => Fail(e)
    case Got(_, b1) =>
      match Take(4, b1)
      case Fail(e) => Fail(e)
      case Got(version, b2) =>
        match ParseList(FunctionParser(AsU32(version)), b2)
        case Fail(e) => Fail(e)
        case Got(functions, rest) => Got(Module(AsU32(version), functions), rest)
  }

  /** `read_binary`: a module and nothing after it. */
  function ReadBinary(b: Bytes): Result<Module, CodecError> {
    match ParseModule(b)
    case Fail(e) => Err(e)
    case Got(m, rest) => if rest == [] then Ok(m) else Err(TrailingData)
  }

  // ---------------------------------------------------------------- what can be encoded

  predicate Fits16<T>(xs: seq<T>) { |xs| < 0x1_0000 }

  predicate EncodableConstant(c: Constant) { c.String? ==> Fits16(c.s) }

  predicate EncodableFunction(version: u32, f: Function) {
    && Fits16(f.name)
    && (f.returnConvention == TAGGED || f.returnConvention == UNBOXED_INT64)
    && (version < 3 ==> f.asyncKind == Sync)
    && Fits16(f.constants) && (forall c | c in f.constants :: EncodableConstant(c))
    && |f.code| < 0x1_0000_0000
    && Fits16(f.sourceMap) && (forall e | e in f.sourceMap :: Fits16(e.sourceLocation))
    && Fits16(f.debugLocals) && (forall e | e in f.debugLocals :: Fits16(e.name))
    && (version < 2 ==> f.debugLocals == [])
  }

  predicate Encodable(version: u32, functions: seq<Function>) {
    Fits16(functions) && forall f | f in functions :: EncodableFunction(version, f)
  }
}
