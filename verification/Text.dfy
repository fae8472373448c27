/** Strings as valid UTF-8 byte sequences (RFC 3629), with the few string operations the bytecode code uses. */
module Text {
  import opened Basics

  predicate Continuation(b: byte) { 0x80 <= b <= 0xbf }

  /** Length of the first code point, or 0 when the bytes do not start with a well-formed one. */
  function FirstLength(s: Bytes): (n: nat)
    ensures n <= |s| && n <= 4
  {
    if |s| >= 1 && s[0] <= 0x7f then 1
    else if |s| >= 2 && 0xc2 <= s[0] <= 0xdf && Continuation(s[1]) then 2
    else if |s| >= 3 && 0xe0 <= s[0] <= 0xef && Continuation(s[1]) && Continuation(s[2])
            && (s[0] == 0xe0 ==> s[1] >= 0xa0) && (s[0] == 0xed ==> s[1] <= 0x9f) then 3
    else if |s| >= 4 && 0xf0 <= s[0] <= 0xf4 && Continuation(s[1]) && Continuation(s[2]) && Continuation(s[3])
            && (s[0] == 0xf0 ==> s[1] >= 0x90) && (s[0] == 0xf4 ==> s[1] <= 0x8f) then 4
    else 0
  }

  predicate ValidUtf8(s: Bytes)
    decreases |s|
  {
    s == [] || (FirstLength(s) > 0 && ValidUtf8(s[FirstLength(s)..]))
  }

  type Text = s: Bytes | ValidUtf8(s) witness []

  function Bits(b: byte, base: int): int { b as int - base }

  function FirstCodePoint(s: Bytes): int
    requires FirstLength(s) > 0
  {
    match FirstLength(s)
    case 1 => Bits(s[0], 0)
    case 2 => Bits(s[0], 0xc0) * 0x40 + Bits(s[1], 0x80)
    case 3 => Bits(s[0], 0xe0) * 0x1000 + Bits(s[1], 0x80) * 0x40 + Bits(s[2], 0x80)
    case _ => Bits(s[0], 0xf0) * 0x4_0000 + Bits(s[1], 0x80) * 0x1000 + Bits(s[2], 0x80) * 0x40 + Bits(s[3], 0x80)
  }

  /** `s.trim().is_empty()` */
  predicate IsBlank(s: Text)
    decreases |s|
  {
    s == [] || (IsWhiteSpace(FirstCodePoint(s)) && IsBlank(s[FirstLength(s)..]))
  }

  lemma {:induction false} AsciiIsValid(s: Bytes)
    requires forall i | 0 <= i < |s| :: s[i] <= 0x7f
    ensures ValidUtf8(s)
  {
    if s != [] {
      AsciiIsValid(s[1..]);
    }
  }

  function Ascii(s: string): (t: Text)
    requires forall i | 0 <= i < |s| :: s[i] as int <= 0x7f
    ensures |t| == |s| && forall i | 0 <= i < |s| :: t[i] == s[i] as int
  {
    var t: Bytes := seq(|s|, i requires 0 <= i < |s| => s[i] as int as byte);
    AsciiIsValid(t);
    t
  }

  const NAMED_MARKER: Bytes := [0x3b, 0x6e, 0x61, 0x6d, 0x65, 0x64, 0x3a]  // ";named:"
  const COMMA: byte := 0x2c

  predicate StartsWith(s: Bytes, prefix: Bytes) {
    |prefix| <= |s| && s[..|prefix|] == prefix
  }

  /** `s.find(NAMED_MARKER)`: the first position, or the length when there is none. */
  function FindMarker(s: Bytes): (i: nat)
    ensures i <= |s| && (i < |s| ==> StartsWith(s[i..], NAMED_MARKER))
  {
    if s == [] || StartsWith(s, NAMED_MARKER) then 0
    else
      var i := FindMarker(s[1..]);
      assert s[1..][i..] == s[1 + i..];
      1 + i
  }

  /** No earlier position holds the marker, and the length means it is nowhere. */
  lemma {:induction false} FindMarkerIsFirst(s: Bytes, j: nat)
    requires j < FindMarker(s)
    ensures j <= |s| && !StartsWith(s[j..], NAMED_MARKER)
  {
    if j > 0 {
      FindMarkerIsFirst(s[1..], j - 1);
      assert s[1..][j - 1..] == s[j..];
    } else {
      assert s[0..] == s;
    }
  }

  /** `s.split(',')` */
  function Split(s: Bytes): (pieces: seq<Bytes>)
    ensures |pieces| >= 1
  {
    if s == [] then [[]]
    else
      var rest := Split(s[1..]);
      if s[0] == COMMA then [[]] + rest else [[s[0]] + rest[0]] + rest[1..]
  }

  function Join(pieces: seq<Bytes>): Bytes
    requires pieces != []
  {
    if |pieces| == 1 then pieces[0] else pieces[0] + [COMMA] + Join(pieces[1..])
  }

  /** The pieces hold no comma, and commas between them give the text back; no other list of pieces does. */
  lemma {:induction false} SplitUndoesJoin(pieces: seq<Bytes>)
    requires pieces != [] && forall p | p in pieces :: COMMA !in p
    ensures Split(Join(pieces)) == pieces
    decreases |pieces|, |Join(pieces)|
  {
    var first, rest := pieces[0], pieces[1..];
    if first != [] {
      var shorter := [first[1..]] + rest;
      assert shorter[1..] == rest;
      assert Join(pieces)[1..] == Join(shorter) && Join(pieces)[0] == first[0];
      assert first[0] in first && forall b | b in first[1..] :: b in first;
      SplitUndoesJoin(shorter);
      assert [first[0]] + first[1..] == first;
    } else if rest != [] {
      assert Join(pieces)[1..] == Join(rest) && Join(pieces)[0] == COMMA;
      SplitUndoesJoin(rest);
    }
  }

  lemma {:induction false} JoinUndoesSplit(s: Bytes)
    ensures Join(Split(s)) == s && forall p | p in Split(s) :: COMMA !in p
  {
    if s != [] {
      JoinUndoesSplit(s[1..]);
      var rest := Split(s[1..]);
      if s[0] == COMMA {
        assert Split(s)[1..] == rest;
      } else {
        assert Split(s)[1..] == rest[1..];
        assert rest[0] in rest;
        assert Join(Split(s)) == [s[0]] + Join(rest);
      }
    }
  }

  /** `.filter(|name| !name.is_empty()).count()` */
  function CountNonEmpty(pieces: seq<Bytes>): nat {
    if pieces == [] then 0 else (if pieces[0] == [] then 0 else 1) + CountNonEmpty(pieces[1..])
  }

  /** `count_named_arguments`. */
  function CountNamedArguments(metadata: Bytes, requirePrefix: bool): nat {
    var at := FindMarker(metadata);
    if at == |metadata| || (requirePrefix && at != 0) then 0
    else CountNonEmpty(Split(metadata[at + |NAMED_MARKER|..]))
  }
}
