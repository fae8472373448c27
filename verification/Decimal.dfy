/** The text of the progress file: Rust's `u64::to_string`, `str::trim` and `str::parse::<u64>`. */
module Decimal {
  import opened Basics

  predicate IsDigit(c: char) { '0' <= c <= '9' }

  function Digit(d: nat): (c: char)
    requires d < 10
    ensures IsDigit(c) && DigitValue(c) == d
  {
    '0' + d as char
  }

  function DigitValue(c: char): (d: nat)
    requires IsDigit(c)
    ensures d < 10
  {
    (c - '0') as nat
  }

  function ToDecimal(n: nat): (s: string)
    ensures s != [] && forall c | c in s :: IsDigit(c)
  {
    if n < 10 then [Digit(n)] else ToDecimal(n / 10) + [Digit(n % 10)]
  }

  function Value(s: string): nat
    requires forall c | c in s :: IsDigit(c)
  {
    if s == [] then 0 else Value(s[..|s| - 1]) * 10 + DigitValue(s[|s| - 1])
  }

  function Trim(s: string): string
    decreases |s|
  {
    if s != [] && IsWhiteSpace(s[0] as int) then Trim(s[1..])
    else if s != [] && IsWhiteSpace(s[|s| - 1] as int) then Trim(s[..|s| - 1])
    else s
  }

  function ParseU64(text: string): Option<nat> {
    var t := Trim(text);
    var digits := if t != [] && t[0] == '+' then t[1..] else t;
    if digits != [] && (forall c | c in digits :: IsDigit(c)) && Value(digits) < 0x1_0000_0000_0000_0000
    then Some(Value(digits)) else None
  }

  lemma {:induction false} DecimalRoundTrip(n: nat)
    ensures Value(ToDecimal(n)) == n
  {
    if n >= 10 {
      DecimalRoundTrip(n / 10);
      assert ToDecimal(n)[..|ToDecimal(n)| - 1] == ToDecimal(n / 10);
    }
  }

  lemma DigitsParse(s: string)
    requires forall c | c in s :: IsDigit(c)
    ensures ParseU64(s) == if s != [] && Value(s) < 0x1_0000_0000_0000_0000 then Some(Value(s)) else None
  {
    assert s != [] ==> IsDigit(s[0]) && IsDigit(s[|s| - 1]);
    assert Trim(s) == s;
  }

  /** What is written reads back. */
  lemma ParseRoundTrip(n: nat)
    ensures ParseU64(ToDecimal(n)) == if n < 0x1_0000_0000_0000_0000 then Some(n) else None
  {
    DecimalRoundTrip(n);
    DigitsParse(ToDecimal(n));
  }

  // ---------------------------------------------------------------- white space around a number

  predicate Blank(s: string) {
    forall i | 0 <= i < |s| :: IsWhiteSpace(s[i] as int)
  }

  lemma {:induction false} TrimDropsPadding(left: string, t: string, right: string)
    requires Blank(left) && Blank(right)
    requires t != [] && !IsWhiteSpace(t[0] as int) && !IsWhiteSpace(t[|t| - 1] as int)
    ensures Trim(left + t + right) == t
    decreases |left| + |right|
  {
    hide IsWhiteSpace;
    var s := left + t + right;
    if left != [] {
      assert s[0] == left[0] && s[1..] == left[1..] + t + right;
      TrimDropsPadding(left[1..], t, right);
    } else if right != [] {
      assert s[0] == t[0] && s[|s| - 1] == right[|right| - 1];
      assert s[..|s| - 1] == left + t + right[..|right| - 1];
      TrimDropsPadding(left, t, right[..|right| - 1]);
    } else {
      assert s == t;
    }
  }

  lemma {:induction false} TrimLeavesPadding(s: string) returns (left: string, right: string)
    ensures s == left + Trim(s) + right && Blank(left) && Blank(right)
    decreases |s|
  {
    hide IsWhiteSpace;
    left, right := [], [];
    if s != [] && IsWhiteSpace(s[0] as int) {
      left, right := TrimLeavesPadding(s[1..]);
      assert s == [s[0]] + s[1..];
      left := [s[0]] + left;
    } else if s != [] && IsWhiteSpace(s[|s| - 1] as int) {
      left, right := TrimLeavesPadding(s[..|s| - 1]);
      assert s == s[..|s| - 1] + [s[|s| - 1]];
      right := right + [s[|s| - 1]];
    }
  }

  /** Digits, perhaps after a plus sign, inside white space. */
  ghost predicate Denotes(text: string, left: string, plus: bool, digits: string, right: string) {
    && text == left + ((if plus then "+" else "") + digits) + right
    && Blank(left) && Blank(right) && digits != [] && forall c | c in digits :: IsDigit(c)
  }

  lemma NumberIsNotBlank(plus: bool, digits: string)
    requires digits != [] && forall c | c in digits :: IsDigit(c)
    ensures var t := (if plus then "+" else "") + digits;
            t != [] && !IsWhiteSpace(t[0] as int) && !IsWhiteSpace(t[|t| - 1] as int)
    ensures var t := (if plus then "+" else "") + digits;
            (t[0] == '+' <==> plus) && (if t[0] == '+' then t[1..] else t) == digits
  {
    assert digits[0] in digits && digits[|digits| - 1] in digits;
    assert IsDigit(digits[0]) && IsDigit(digits[|digits| - 1]);
  }

  /** Which texts read as a number, and as which. */
  lemma ParsesIff(text: string, n: nat)
    ensures ParseU64(text) == Some(n) <==>
            n < 0x1_0000_0000_0000_0000
            && exists left, plus, digits, right :: Denotes(text, left, plus, digits, right) && Value(digits) == n
  {
    hide IsWhiteSpace, Trim, Blank, IsDigit, Value;
    if ParseU64(text) == Some(n) {
      var t := Trim(text);
      var plus := t[0] == '+';
      var digits := if plus then t[1..] else t;
      var left, right := TrimLeavesPadding(text);
      assert t == (if plus then "+" else "") + digits;
      assert Denotes(text, left, plus, digits, right);
    }
    if left, plus, digits, right :| Denotes(text, left, plus, digits, right) && Value(digits) == n {
      NumberIsNotBlank(plus, digits);
      TrimDropsPadding(left, (if plus then "+" else "") + digits, right);
    }
  }

  /** What the downloader records reads back, also when white space was added around it. */
  lemma PaddedRoundTrip(left: string, n: nat, right: string)
    requires Blank(left) && Blank(right) && n < 0x1_0000_0000_0000_0000
    ensures ParseU64(left + ToDecimal(n) + right) == Some(n)
  {
    hide ParseU64, ToDecimal;
    DecimalRoundTrip(n);
    assert "" + ToDecimal(n) == ToDecimal(n);
    assert Denotes(left + ToDecimal(n) + right, left, false, ToDecimal(n), right);
    ParsesIff(left + ToDecimal(n) + right, n);
  }

  lemma TwentyFour()
    ensures ToDecimal(24) == "24"
  {
    assert ToDecimal(24) == ToDecimal(2) + [Digit(4)];
    assert ToDecimal(2) == [Digit(2)];
    assert Digit(2) == '2' && Digit(4) == '4';
  }
}
