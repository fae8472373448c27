/** The text type against the definition of UTF-8 (section 3 of RFC 3629): exactly the encodings of Unicode scalar values. */
module Utf8 {
  import opened Basics
  import opened Text

  predicate Scalar(c: int) {
    0 <= c < 0x11_0000 && !(0xd800 <= c <= 0xdfff)
  }

  function EncodePoint(c: int): (b: Bytes)
    requires Scalar(c)
    ensures 1 <= |b| <= 4
  {
    if c < 0x80 then [c]
    else if c < 0x800 then [0xc0 + c / 0x40, 0x80 + c % 0x40]
    else if c < 0x1_0000 then [0xe0 + c / 0x1000, 0x80 + c / 0x40 % 0x40, 0x80 + c % 0x40]
    else [0xf0 + c / 0x4_0000, 0x80 + c / 0x1000 % 0x40, 0x80 + c / 0x40 % 0x40, 0x80 + c % 0x40]
  }

  predicate Scalars(cs: seq<int>) {
    forall i | 0 <= i < |cs| :: Scalar(cs[i])
  }

  function Encode(cs: seq<int>): Bytes
    requires Scalars(cs)
  {
    if cs == [] then [] else EncodePoint(cs[0]) + Encode(cs[1..])
  }

  /** Four digits to the base 64. */
  lemma Digits(a: nat, b: nat, c: nat, d: nat)
    requires b < 0x40 && c < 0x40 && d < 0x40
    ensures var v := a * 0x4_0000 + b * 0x1000 + c * 0x40 + d;
            v / 0x4_0000 == a && v / 0x1000 % 0x40 == b && v / 0x40 % 0x40 == c && v % 0x40 == d
            && v / 0x1000 == a * 0x40 + b && v / 0x40 == a * 0x1000 + b * 0x40 + c
  {
  }

  lemma DigitsOf(v: nat)
    ensures v == v / 0x4_0000 * 0x4_0000 + v / 0x1000 % 0x40 * 0x1000 + v / 0x40 % 0x40 * 0x40 + v % 0x40
    ensures v / 0x1000 == v / 0x4_0000 * 0x40 + v / 0x1000 % 0x40
    ensures v / 0x40 == v / 0x1000 * 0x40 + v / 0x40 % 0x40
  {
    var x := v / 0x40;
    var y := x / 0x40;
    var z := y / 0x40;
    assert v == z * 0x4_0000 + y % 0x40 * 0x1000 + x % 0x40 * 0x40 + v % 0x40;
    Digits(z, y % 0x40, x % 0x40, v % 0x40);
  }

  lemma LengthReadsBack(c: int, s: Bytes)
    requires Scalar(c) && EncodePoint(c) <= s
    ensures FirstLength(s) == |EncodePoint(c)|
  {
    DigitsOf(c);
    assert forall i | 0 <= i < |EncodePoint(c)| :: s[i] == EncodePoint(c)[i];
  }

  lemma ValueReadsBack(c: int, s: Bytes)
    requires Scalar(c) && EncodePoint(c) <= s && FirstLength(s) == |EncodePoint(c)|
    ensures FirstCodePoint(s) == c
  {
    hide FirstLength;
    DigitsOf(c);
    assert forall i | 0 <= i < |EncodePoint(c)| :: s[i] == EncodePoint(c)[i];
  }

  lemma PointReadsBack(c: int, rest: Bytes)
    requires Scalar(c)
    ensures var s := EncodePoint(c) + rest;
            FirstLength(s) == |EncodePoint(c)| && FirstCodePoint(s) == c && s[FirstLength(s)..] == rest
  {
    hide EncodePoint, FirstLength, FirstCodePoint;
    LengthReadsBack(c, EncodePoint(c) + rest);
    ValueReadsBack(c, EncodePoint(c) + rest);
  }

  lemma PointIsEncoded(s: Bytes)
    requires FirstLength(s) > 0
    ensures Scalar(FirstCodePoint(s)) && s == EncodePoint(FirstCodePoint(s)) + s[FirstLength(s)..]
  {
    var n := FirstLength(s);
    assert s == s[..n] + s[n..];
    PointBytes(s);
  }

  lemma PointBytes(s: Bytes)
    requires FirstLength(s) > 0
    ensures Scalar(FirstCodePoint(s)) && EncodePoint(FirstCodePoint(s)) == s[..FirstLength(s)]
  {
    if FirstLength(s) == 4 {
      FourPointBytes(s);
    } else if FirstLength(s) == 3 {
      Digits(0, s[0] - 0xe0, s[1] - 0x80, s[2] - 0x80);
    } else if FirstLength(s) == 2 {
      Digits(0, 0, s[0] - 0xc0, s[1] - 0x80);
    }
  }

  lemma FourPointBytes(s: Bytes)
    requires FirstLength(s) == 4
    ensures Scalar(FirstCodePoint(s)) && EncodePoint(FirstCodePoint(s)) == s[..4]
  {
    Digits(s[0] - 0xf0, s[1] - 0x80, s[2] - 0x80, s[3] - 0x80);
  }

  lemma {:induction false} EncodedIsValid(cs: seq<int>)
    requires Scalars(cs)
    ensures ValidUtf8(Encode(cs))
  {
    hide EncodePoint, FirstLength, FirstCodePoint, Scalar;
    if cs != [] {
      EncodedIsValid(cs[1..]);
      PointReadsBack(cs[0], Encode(cs[1..]));
    }
  }

  lemma {:induction false} ValidIsEncoded(s: Bytes) returns (cs: seq<int>)
    requires ValidUtf8(s)
    ensures Scalars(cs) && s == Encode(cs)
    decreases |s|
  {
    hide EncodePoint, FirstLength, FirstCodePoint, Scalar;
    if s == [] {
      cs := [];
    } else {
      var rest := ValidIsEncoded(s[FirstLength(s)..]);
      PointIsEncoded(s);
      cs := [FirstCodePoint(s)] + rest;
      assert cs[1..] == rest;
    }
  }

  /** A byte string is text if and only if it encodes some Unicode scalar values. */
  lemma ValidIffEncoded(s: Bytes)
    ensures ValidUtf8(s) <==> exists cs :: Scalars(cs) && s == Encode(cs)
  {
    if ValidUtf8(s) { var cs := ValidIsEncoded(s); }
    if cs :| Scalars(cs) && s == Encode(cs) { EncodedIsValid(cs); }
  }

  /** A text is blank if and only if all it encodes is white space. */
  lemma {:induction false} BlankIff(cs: seq<int>)
    requires Scalars(cs)
    ensures ValidUtf8(Encode(cs))
    ensures IsBlank(Encode(cs)) <==> forall i | 0 <= i < |cs| :: IsWhiteSpace(cs[i])
  {
    hide EncodePoint, FirstLength, FirstCodePoint, Scalar, IsWhiteSpace;
    EncodedIsValid(cs);
    if cs != [] {
      var rest := cs[1..];
      BlankIff(rest);
      PointReadsBack(cs[0], Encode(rest));
      assert forall i | 1 <= i < |cs| :: cs[i] == rest[i - 1];
    }
  }
}
