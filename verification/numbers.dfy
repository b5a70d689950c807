/** Which texts std::stoul reads as which number (webcc/string.cc): a grammar of its own, to compare to_size_t with. */
module Numbers {
  import opened Text

  // ---------------------------------------------------------------- digits

  const LOWER: string := "0123456789abcdef"
  const UPPER: string := "0123456789ABCDEF"

  /** The digits of a base, in either case. */
  predicate DigitOf(c: char, b: Base) {
    if b.Dec? then c in LOWER[..10] else c in LOWER || c in UPPER
  }

  lemma DigitsListed(c: char, b: Base)
    ensures IsDigit(c, b) <==> DigitOf(c, b)
  {
    assert LOWER[..10] == "0123456789";
  }

  lemma DigitCharListed(d: nat)
    requires d < 16
    ensures DigitChar(d) == LOWER[d] && ToUpper(DigitChar(d)) == UPPER[d] && DigitValue(UPPER[d]) == d
  {
  }

  /** A number is printed digit by digit, to the base 10 or 16. */
  lemma PrintedDigits(q: nat, d: nat, b: Base)
    requires d < if b.Dec? then 10 else 16
    ensures ToDigits(d, b) == [LOWER[d]]
    ensures q > 0 ==> ToDigits(q * (if b.Dec? then 10 else 16) + d, b) == ToDigits(q, b) + [LOWER[d]]
  {
    DigitCharListed(d);
    var r := b.Radix();
    if q > 0 {
      var n := q * r + d;
      assert n / r == q && n % r == d && n >= r by {
        match b
        case Dec => assert n == q * 10 + d;
        case Hex => assert n == q * 16 + d;
      }
    }
  }

  // ---------------------------------------------------------------- numerals

  predicate Zeros(s: string) {
    forall i :: 0 <= i < |s| ==> s[i] == '0'
  }

  /** `s` is the printed number, with letters in either case and any zeros in front. */
  ghost predicate Writes(s: string, n: nat, b: Base) {
    exists k :: 0 <= k <= |s| && WritesFrom(s, k, n, b)
  }

  predicate WritesFrom(s: string, k: nat, n: nat, b: Base)
    requires k <= |s|
  {
    Zeros(s[..k]) && IEquals(s[k..], ToDigits(n, b))
  }

  lemma {:induction false} SameDigits(s: string, t: string, b: Base)
    requires IEquals(s, t)
    ensures Value(s, b) == Value(t, b)
    ensures (forall i :: 0 <= i < |s| ==> IsDigit(s[i], b)) <==> (forall i :: 0 <= i < |t| ==> IsDigit(t[i], b))
  {
    if s != "" {
      var n := |s| - 1;
      SameDigits(s[..n], t[..n], b);
      SameDigit(s[n], t[n]);
      forall i | 0 <= i < |s| ensures IsDigit(s[i], b) <==> IsDigit(t[i], b) {
        SameDigit(s[i], t[i]);
      }
    }
  }

  lemma SameDigit(c: char, d: char)
    requires ToUpper(c) == ToUpper(d)
    ensures DigitValue(c) == DigitValue(d)
  {
  }

  lemma {:induction false} ZerosInFront(z: string, s: string, b: Base)
    requires Zeros(z)
    ensures Value(z + s, b) == Value(s, b)
    decreases |z| + |s|
  {
    var t := z + s;
    if s != "" {
      var n := |s| - 1;
      assert t[..|t| - 1] == z + s[..n];
      ZerosInFront(z, s[..n], b);
    } else if z != "" {
      assert t[..|t| - 1] == z[..|z| - 1] + "";
      ZerosInFront(z[..|z| - 1], "", b);
      assert t[|t| - 1] == '0';
    }
  }

  /** What a numeral is worth. */
  lemma {:induction false} WrittenValue(s: string, n: nat, b: Base)
    requires Writes(s, n, b)
    ensures s != "" && Value(s, b) == n && forall i :: 0 <= i < |s| ==> IsDigit(s[i], b)
  {
    var k :| 0 <= k <= |s| && WritesFrom(s, k, n, b);
    SameDigits(s[k..], ToDigits(n, b), b);
    ValueOfDigits(n, b);
    ZerosInFront(s[..k], s[k..], b);
    assert s == s[..k] + s[k..];
    forall i | 0 <= i < |s| ensures IsDigit(s[i], b) {
      if i < k {
        assert s[..k][i] == '0';
      } else {
        assert s[k..][i - k] == s[i];
      }
    }
  }

  /** Every text of digits is a numeral. */
  lemma {:induction false} DigitsWrite(s: string, b: Base)
    requires s != "" && forall i :: 0 <= i < |s| ==> IsDigit(s[i], b)
    ensures Writes(s, Value(s, b), b)
  {
    var n := |s| - 1;
    var front, d := s[..n], DigitValue(s[n]);
    LastDigit(s[n], b);
    assert s == front + [s[n]];
    if front == "" {
      PrintedDigits(0, d, b);
      assert s[..0] == "" && s[0..] == s && |s| == 1;
      assert Value(s, b) == Value("", b) * b.Radix() + d == d;
      assert WritesFrom(s, 0, d, b);
    } else {
      DigitsWrite(front, b);
      OneMoreDigit(front, Value(front, b), s[n], b);
    }
  }

  lemma LastDigit(c: char, b: Base)
    requires IsDigit(c, b)
    ensures DigitValue(c) < (if b.Dec? then 10 else 16) && ToUpper(c) == ToUpper(LOWER[DigitValue(c)])
  {
  }

  lemma {:induction false} OneMoreDigit(s: string, v: nat, c: char, b: Base)
    requires Writes(s, v, b) && IsDigit(c, b)
    ensures Writes(s + [c], v * b.Radix() + DigitValue(c), b)
  {
    hide WritesFrom;
    var k :| 0 <= k <= |s| && WritesFrom(s, k, v, b);
    if v > 0 {
      BehindDigits(s, k, v, c, b);
    } else {
      BehindZeros(s, k, c, b);
      assert WritesFrom(s + [c], |s|, DigitValue(c), b);
    }
  }

  lemma {:induction false} BehindDigits(s: string, k: nat, v: nat, c: char, b: Base)
    requires k <= |s| && v > 0 && WritesFrom(s, k, v, b) && IsDigit(c, b)
    ensures WritesFrom(s + [c], k, v * b.Radix() + DigitValue(c), b)
  {
    hide ToDigits, DigitValue;
    var t := s + [c];
    LastDigit(c, b);
    PrintedDigits(v, DigitValue(c), b);
    assert t[..k] == s[..k] && t[k..] == s[k..] + [c];
  }

  lemma {:induction false} BehindZeros(s: string, k: nat, c: char, b: Base)
    requires k <= |s| && WritesFrom(s, k, 0, b) && IsDigit(c, b)
    ensures WritesFrom(s + [c], |s|, DigitValue(c), b)
  {
    hide ToDigits, DigitValue;
    var t := s + [c];
    LastDigit(c, b);
    PrintedDigits(0, DigitValue(c), b);
    PrintedDigits(0, 0, b);
    assert ToDigits(0, b) == "0" && |s[k..]| == 1;
    assert ToUpper(s[k..][0]) == ToUpper('0');
    assert t[..|s|] == s && t[|s|..] == [c];
    forall i | 0 <= i < |s| ensures t[..|s|][i] == '0' {
      assert s[i] == if i < k then s[..k][i] else s[k..][i - k];
    }
  }

  // ---------------------------------------------------------------- what is read

  /** The white space of the C locale: space, tab, line feed, vertical tab, form feed, carriage return. */
  predicate White(s: string) {
    forall i :: 0 <= i < |s| ==> s[i] == ' ' || 9 <= s[i] as int <= 13
  }

  /** A prefix that is skipped in base 16 if a digit follows. */
  predicate Prefix(s: string, b: Base) {
    s == "" || (b.Hex? && (s == "0x" || s == "0X"))
  }

  predicate StartsWithPrefix(s: string, b: Base) {
    b.Hex? && |s| >= 3 && Prefix(s[..2], b) && DigitOf(s[2], b)
  }

  /** Text of a number: white space, a sign, a prefix, a numeral, and anything that does not go on with it. */
  datatype Numeral = Numeral(white: string, sign: string, prefix: string, digits: string, tail: string) {
    function Text(): string {
      white + (sign + (prefix + (digits + tail)))
    }

    predicate Valid(b: Base) {
      && White(white) && (sign == "" || sign == "+" || sign == "-") && Prefix(prefix, b)
      && (prefix == "" ==> !StartsWithPrefix(digits + tail, b))
      && (tail == "" || !DigitOf(tail[0], b))
    }
  }

  /** `s` stands for `n` modulo 2^64: a minus sign negates. */
  ghost predicate Denotes(s: string, n: nat, b: Base) {
    exists t: Numeral, m: nat :: t.Text() == s && DenotedBy(t, m, n, b)
  }

  ghost predicate DenotedBy(t: Numeral, m: nat, n: nat, b: Base) {
    t.Valid(b) && m < W && Writes(t.digits, m, b) && n == if t.sign == "-" && m > 0 then W - m else m
  }

  lemma {:induction false} SkipWhite(white: string, s: string)
    requires White(white) && (s == "" || !IsSpace(s[0]))
    ensures SkipSpaces(white + s) == s
  {
    if white != "" {
      assert (white + s)[0] == white[0] && (white + s)[1..] == white[1..] + s;
      SkipWhite(white[1..], s);
    } else {
      assert white + s == s;
    }
  }

  lemma {:induction false} WhiteSkipped(s: string) returns (white: string)
    ensures White(white) && s == white + SkipSpaces(s) && (SkipSpaces(s) == "" || !IsSpace(SkipSpaces(s)[0]))
  {
    white := "";
    if s != "" && IsSpace(s[0]) {
      white := WhiteSkipped(s[1..]);
      white := [s[0]] + white;
    }
  }

  lemma {:induction false} DigitsEnd(digits: string, tail: string, b: Base)
    requires forall i :: 0 <= i < |digits| ==> IsDigit(digits[i], b)
    requires tail == "" || !IsDigit(tail[0], b)
    ensures DigitsLen(digits + tail, b) == |digits|
  {
    if digits != "" {
      assert (digits + tail)[0] == digits[0] && (digits + tail)[1..] == digits[1..] + tail;
      DigitsEnd(digits[1..], tail, b);
    } else {
      assert digits + tail == tail;
    }
  }

  lemma {:induction false} DigitsStop(s: string, b: Base)
    ensures var k := DigitsLen(s, b); k == |s| || !IsDigit(s[k], b)
  {
    if s != "" && IsDigit(s[0], b) {
      DigitsStop(s[1..], b);
    }
  }

  /** The number behind white space and sign. */
  function Unsigned(u: string, b: Base): (r: Option<nat>)
    ensures r.Some? ==> r.value < W
  {
    var w := if StartsWithPrefix(u, b) then u[2..] else u;
    var k := DigitsLen(w, b);
    if k == 0 || Value(w[..k], b) >= W then None else Some(Value(w[..k], b))
  }

  function Negated(negative: bool, r: Option<nat>): Option<nat>
    requires r.Some? ==> r.value < W
  {
    if r.None? || !negative || r.value == 0 then r else Some(W - r.value)
  }

  lemma ToSizeSteps(s: string, b: Base)
    ensures var t := SkipSpaces(s);
            var signed := t != "" && (t[0] == '-' || t[0] == '+');
            ToSize(s, b) == Negated(signed && t[0] == '-', Unsigned(if signed then t[1..] else t, b))
  {
    hide Value, SkipSpaces, DigitsLen, StartsWithPrefix, IsDigit;
    var t := SkipSpaces(s);
    var u := if t != "" && (t[0] == '-' || t[0] == '+') then t[1..] else t;
    PrefixIs(u, b);
  }

  lemma PrefixIs(u: string, b: Base)
    ensures StartsWithPrefix(u, b)
            <==> b.Hex? && |u| >= 3 && u[0] == '0' && (u[1] == 'x' || u[1] == 'X') && IsDigit(u[2], b)
  {
    if |u| >= 3 {
      assert u[..2] == [u[0], u[1]];
      DigitsListed(u[2], b);
    }
  }

  lemma {:induction false} UnsignedRead(prefix: string, digits: string, tail: string, m: nat, b: Base)
    requires Numeral("", "", prefix, digits, tail).Valid(b) && m < W && Writes(digits, m, b)
    ensures Unsigned(prefix + (digits + tail), b) == Some(m)
    ensures var u := prefix + (digits + tail); u[0] != '-' && u[0] != '+' && !IsSpace(u[0])
  {
    hide Writes, Value, DigitsLen;
    WrittenValue(digits, m, b);
    if tail != "" {
      DigitsListed(tail[0], b);
    }
    var w := digits + tail;
    var u := prefix + w;
    assert IsDigit(digits[0], b);
    DigitsListed(digits[0], b);
    if prefix == "" {
      assert u == w;
    } else {
      assert u[..2] == prefix && u[2] == digits[0] && u[2..] == w;
    }
    DigitsEnd(digits, tail, b);
    assert w[..|digits|] == digits;
  }

  lemma {:induction false} DenotedIsRead(t: Numeral, m: nat, n: nat, b: Base)
    requires DenotedBy(t, m, n, b)
    ensures ToSize(t.Text(), b) == Some(n)
  {
    hide Writes, Unsigned, SkipSpaces, ToSize;
    var u := t.prefix + (t.digits + t.tail);
    UnsignedRead(t.prefix, t.digits, t.tail, m, b);
    var signed := t.sign + u;
    if t.sign == "" {
      assert signed == u;
    } else {
      assert signed[0] == t.sign[0] && signed[1..] == u;
    }
    SkipWhite(t.white, signed);
    ToSizeSteps(t.Text(), b);
  }

  lemma {:induction false} UnsignedDenoted(u: string, b: Base) returns (prefix: string, digits: string, tail: string)
    requires Unsigned(u, b).Some?
    ensures u == prefix + (digits + tail)
    ensures Numeral("", "", prefix, digits, tail).Valid(b) && Writes(digits, Unsigned(u, b).value, b)
  {
    hide Value, Writes, IsDigit;
    var w := if StartsWithPrefix(u, b) then u[2..] else u;
    prefix := if StartsWithPrefix(u, b) then u[..2] else "";
    var k := DigitsLen(w, b);
    digits, tail := w[..k], w[k..];
    DigitsStop(w, b);
    DigitsWrite(digits, b);
    assert digits + tail == w;
    if tail != "" {
      DigitsListed(tail[0], b);
    }
  }

  lemma {:induction false} ReadIsDenoted(s: string, b: Base) returns (t: Numeral, m: nat)
    requires ToSize(s, b).Some?
    ensures t.Text() == s && DenotedBy(t, m, ToSize(s, b).value, b)
  {
    hide Writes, Unsigned, SkipSpaces, ToSize;
    ToSizeSteps(s, b);
    var white := WhiteSkipped(s);
    var r := SkipSpaces(s);
    var signed := r != "" && (r[0] == '-' || r[0] == '+');
    var sign, u := if signed then r[..1] else "", if signed then r[1..] else r;
    var prefix, digits, tail := UnsignedDenoted(u, b);
    assert r == sign + u;
    t, m := Numeral(white, sign, prefix, digits, tail), Unsigned(u, b).value;
  }

  /** to_size_t gives `n` for exactly the texts that stand for it, and fails for all that stand for nothing. */
  lemma {:induction false} SizeMeaning(s: string, n: nat, b: Base)
    ensures ToSize(s, b) == Some(n) <==> Denotes(s, n, b)
  {
    hide ToSize;
    if ToSize(s, b) == Some(n) {
      var t, m := ReadIsDenoted(s, b);
    }
    forall t: Numeral, m: nat | t.Text() == s && DenotedBy(t, m, n, b) ensures ToSize(s, b) == Some(n) {
      DenotedIsRead(t, m, n, b);
    }
  }
}
