/** Decimal digits and the two JavaScript number/string conversions the portal
    relies on: `Number.prototype.toString()` of an integer and
    `parseInt(s, 10)`. Numbers are the mathematical integers. */
module Numbers {
  import opened Wrappers
  import opened Text

  /** The ASCII digits `0`-`9`: what the regular expression class `\d` matches. */
  predicate IsDigit(c: char) {
    '0' <= c <= '9'
  }

  predicate AllDigits(s: string) {
    forall i :: 0 <= i < |s| ==> IsDigit(s[i])
  }

  predicate NoDigits(s: string) {
    forall i :: 0 <= i < |s| ==> !IsDigit(s[i])
  }

  function DigitChar(d: nat): (c: char)
    requires d < 10
    ensures IsDigit(c)
  {
    (('0' as int) + d) as char
  }

  function DigitValue(c: char): (d: nat)
    requires IsDigit(c)
    ensures d < 10 && DigitChar(d) == c
  {
    (c as int) - ('0' as int)
  }

  function Pow10(k: nat): (p: nat)
    ensures p >= 1
  {
    if k == 0 then 1 else 10 * Pow10(k - 1)
  }

  /** The number a string of digits denotes, most significant digit first;
      the empty string denotes 0. */
  function DecimalValue(s: string): (v: nat)
    requires AllDigits(s)
    ensures v < Pow10(|s|)
  {
    if s == [] then 0
    else DecimalValue(s[..|s| - 1]) * 10 + DigitValue(s[|s| - 1])
  }

  /** `Number.prototype.toString()` of a non-negative integer: its shortest
      decimal numeral. */
  function NatToString(n: nat): (s: string)
    ensures AllDigits(s) && |s| >= 1
    ensures |s| > 1 ==> s[0] != '0'
    ensures DecimalValue(s) == n
  {
    if n < 10 then [DigitChar(n)]
    else
      var s := NatToString(n / 10) + [DigitChar(n % 10)];
      assert s[..|s| - 1] == NatToString(n / 10);
      s
  }

  /** `Number.prototype.toString()` of an integer: a minus sign before the
      numeral of its magnitude when it is negative. */
  function IntToString(n: int): (s: string)
    ensures |s| >= 1
    ensures n >= 0 <==> s[0] != '-'
    ensures s[if n < 0 then 1 else 0..] == NatToString(if n < 0 then -n else n)
  {
    if n < 0 then "-" + NatToString(-n) else NatToString(n)
  }

  /** A numeral contains no whitespace, so trimming leaves it alone. */
  lemma IntToStringNoWhitespace(n: int)
    ensures NoWhitespace(IntToString(n))
  {
  }

  /** The longest prefix of `s` made of digits. */
  function DigitPrefix(s: string): (r: string)
    ensures AllDigits(r) && r <= s
    ensures |r| == |s| || !IsDigit(s[|r|])
  {
    if |s| > 0 && IsDigit(s[0]) then [s[0]] + DigitPrefix(s[1..]) else []
  }

  /** `parseInt(s, 10)`, with `None` for NaN: skip leading whitespace, then read
      a signed numeral. The value is the exact integer (the double rounding of
      numerals above 2^53 is not modelled), and `-0` is 0. */
  function ParseInt(s: string): (r: Option<int>)
    ensures r.Some? ==> exists i :: 0 <= i < |s| && IsDigit(s[i])
    ensures var t := TrimStart(s);
      r.Some? <==> SignLength(t) < |t| && IsDigit(t[SignLength(t)])
  {
    var t := TrimStart(s);
    var r := ParseSigned(t);
    assert r.Some? ==> IsDigit(s[|s| - |t| + SignLength(t)]);
    r
  }

  /** The length of the optional sign at the start of `t`. */
  function SignLength(t: string): (k: nat)
    ensures k <= 1 && k <= |t|
    ensures k == 1 <==> |t| > 0 && (t[0] == '-' || t[0] == '+')
  {
    if |t| > 0 && (t[0] == '-' || t[0] == '+') then 1 else 0
  }

  /** One optional sign, then the longest run of digits; no digit is NaN. */
  function ParseSigned(t: string): (r: Option<int>)
    ensures r.Some? <==> SignLength(t) < |t| && IsDigit(t[SignLength(t)])
  {
    var digits := DigitPrefix(t[SignLength(t)..]);
    if digits == [] then None
    else
      var v: int := DecimalValue(digits);
      Some(if t[0] == '-' then -v else v)
  }

  /** The value of two numerals written one after the other. */
  lemma {:induction false} DecimalValueAppend(a: string, b: string)
    requires AllDigits(a) && AllDigits(b)
    ensures AllDigits(a + b)
    ensures DecimalValue(a + b) == DecimalValue(a) * Pow10(|b|) + DecimalValue(b)
    decreases |b|
  {
    AllDigitsAppend(a, b);
    if b == [] {
      assert a + b == a;
    } else {
      var b', c := b[..|b| - 1], b[|b| - 1];
      assert b == b' + [c];
      assert a + b == (a + b') + [c];
      DecimalValueAppend(a, b');
      DecimalValueSnoc(a + b', c);
      DecimalValueSnoc(b', c);
      var x, y, p := DecimalValue(a), DecimalValue(b'), Pow10(|b'|);
      assert Pow10(|b|) == 10 * p;
      Regroup(x, p, y, DigitValue(c));
    }
  }

  lemma AllDigitsAppend(a: string, b: string)
    requires AllDigits(a) && AllDigits(b)
    ensures AllDigits(a + b)
  {
  }

  /** Appending one digit multiplies the value by ten and adds the digit. */
  lemma DecimalValueSnoc(s: string, c: char)
    requires AllDigits(s) && IsDigit(c)
    ensures AllDigits(s + [c])
    ensures DecimalValue(s + [c]) == DecimalValue(s) * 10 + DigitValue(c)
  {
    assert (s + [c])[..|s|] == s;
  }

  lemma Regroup(x: int, p: int, y: int, c: int)
    ensures (x * p + y) * 10 + c == x * (10 * p) + (y * 10 + c)
  {
  }

  /** Leading zeros do not change the value of a numeral. */
  lemma LeadingZerosValue(k: nat, s: string)
    requires AllDigits(s)
    ensures AllDigits(Repeat('0', k) + s)
    ensures DecimalValue(Repeat('0', k) + s) == DecimalValue(s)
  {
    ZerosValue(k);
    DecimalValueAppend(Repeat('0', k), s);
  }

  lemma {:induction false} ZerosValue(k: nat)
    ensures AllDigits(Repeat('0', k)) && DecimalValue(Repeat('0', k)) == 0
  {
    if k > 0 {
      ZerosValue(k - 1);
      assert Repeat('0', k)[..k - 1] == Repeat('0', k - 1);
    }
  }

  /** A numeral of a number of at least `10^k` has more than `k` digits. */
  lemma {:induction false} NatToStringLength(n: nat, k: nat)
    requires n >= Pow10(k)
    ensures |NatToString(n)| > k
  {
    if k > 0 {
      NatToStringLength(n / 10, k - 1);
    }
  }

  /** Appending a digit to a number appends its character to the numeral. */
  lemma NatToStringShift(n: nat, d: nat)
    requires n >= 1 && d < 10
    ensures NatToString(10 * n + d) == NatToString(n) + [DigitChar(d)]
  {
    assert (10 * n + d) / 10 == n && (10 * n + d) % 10 == d;
  }

  /** The digit prefix of a run of digits followed by a non-digit is that run. */
  lemma {:induction false} DigitPrefixOfNumeral(d: string, rest: string)
    requires AllDigits(d)
    requires rest == [] || !IsDigit(rest[0])
    ensures DigitPrefix(d + rest) == d
    decreases |d|
  {
    if d == [] {
      assert d + rest == rest;
    } else {
      assert (d + rest)[1..] == d[1..] + rest;
      DigitPrefixOfNumeral(d[1..], rest);
    }
  }

  /** `parseInt` reads back every integer `toString` writes. */
  lemma ParseIntOfIntToString(n: int)
    ensures ParseInt(IntToString(n)) == Some(n)
  {
    if n < 0 {
      var s := IntToString(n);
      assert s[1..] == NatToString(-n);
      ParseIntOfNegative(s);
    } else {
      ParseIntOfPrefix(NatToString(n), []);
      assert NatToString(n) + [] == NatToString(n);
    }
  }

  /** A minus sign before a numeral reads as the numeral's negation. */
  lemma ParseIntOfNegative(t: string)
    requires |t| >= 2 && t[0] == '-' && AllDigits(t[1..])
    ensures ParseInt(t) == Some(-(DecimalValue(t[1..]) as int))
  {
    var d := t[1..];
    assert d + [] == d;
    DigitPrefixOfNumeral(d, []);
    ParseIntOfUnpadded(t);
    ParseSignedOfMinus(t);
  }

  lemma ParseSignedOfMinus(t: string)
    requires t != [] && t[0] == '-'
    ensures ParseSigned(t) ==
      if DigitPrefix(t[1..]) == [] then None
      else Some(-(DecimalValue(DigitPrefix(t[1..])) as int))
  {
    assert SignLength(t) == 1;
  }

  /** Without leading whitespace, `parseInt` reads the signed numeral at once. */
  lemma ParseIntOfUnpadded(t: string)
    requires t == [] || !IsWhitespace(t[0])
    ensures ParseInt(t) == ParseSigned(t)
  {
    assert TrimStart(t) == t;
  }

  /** `parseInt` stops at the first non-digit: a numeral followed by anything
      that does not start with a digit (`"123abc"`) reads as the numeral. */
  lemma ParseIntOfPrefix(d: string, rest: string)
    requires d != [] && AllDigits(d)
    requires rest == [] || !IsDigit(rest[0])
    ensures ParseInt(d + rest) == Some(DecimalValue(d))
  {
    assert (d + rest)[0] == d[0];
    ParseIntOfUnsigned(d + rest);
    DigitPrefixOfNumeral(d, rest);
  }

  /** A string starting with a digit reads as its longest digit prefix. */
  lemma ParseIntOfUnsigned(t: string)
    requires t != [] && IsDigit(t[0])
    ensures ParseInt(t) == Some(DecimalValue(DigitPrefix(t)) as int)
  {
    assert !IsWhitespace(t[0]);
    ParseIntOfUnpadded(t);
    ParseSignedOfDigit(t);
  }

  lemma ParseSignedOfDigit(t: string)
    requires t != [] && IsDigit(t[0])
    ensures ParseSigned(t) == Some(DecimalValue(DigitPrefix(t)) as int)
  {
    assert SignLength(t) == 0 && t[0..] == t;
    assert DigitPrefix(t) != [];
  }

  /** Leading whitespace never changes what `parseInt` reads. */
  lemma ParseIntSkipsWhitespace(ws: string, s: string)
    requires AllWhitespace(ws)
    ensures ParseInt(ws + s) == ParseInt(s)
  {
    TrimStartOfWhitespace(ws, s);
  }

  lemma {:induction false} TrimStartOfWhitespace(ws: string, s: string)
    requires AllWhitespace(ws)
    ensures TrimStart(ws + s) == TrimStart(s)
    decreases |ws|
  {
    if ws == [] {
      assert ws + s == s;
    } else {
      assert (ws + s)[1..] == ws[1..] + s;
      TrimStartOfWhitespace(ws[1..], s);
    }
  }

  /** `parseInt` of whitespace, an optional sign, a numeral and a tail that does
      not start with a digit: the numeral's value, negated after '-'. */
  lemma ParseIntOfSignedNumeral(ws: string, sign: string, d: string, rest: string)
    requires AllWhitespace(ws)
    requires sign == "" || sign == "+" || sign == "-"
    requires d != [] && AllDigits(d)
    requires rest == [] || !IsDigit(rest[0])
    ensures ParseInt(ws + sign + d + rest) ==
      Some(if sign == "-" then -(DecimalValue(d) as int) else DecimalValue(d) as int)
  {
    Regroup4(ws, sign, d, rest);
    ParseIntSkipsWhitespace(ws, sign + d + rest);
    ParseIntOfUnpaddedNumeral(sign, d, rest);
  }

  lemma Regroup4(a: string, b: string, c: string, e: string)
    ensures a + b + c + e == a + (b + c + e)
  {
  }

  lemma ParseIntOfUnpaddedNumeral(sign: string, d: string, rest: string)
    requires sign == "" || sign == "+" || sign == "-"
    requires d != [] && AllDigits(d)
    requires rest == [] || !IsDigit(rest[0])
    ensures ParseInt(sign + d + rest) ==
      Some(if sign == "-" then -(DecimalValue(d) as int) else DecimalValue(d) as int)
  {
    var t := sign + d + rest;
    SignedNumeralParts(sign, d, rest);
    ParseIntOfUnpadded(t);
    DigitPrefixOfNumeral(d, rest);
    ParseSignedOfParts(t, d, rest);
  }

  lemma ParseSignedOfParts(t: string, d: string, rest: string)
    requires d != [] && t[SignLength(t)..] == d + rest && DigitPrefix(d + rest) == d
    ensures ParseSigned(t) ==
      Some(if t[0] == '-' then -(DecimalValue(d) as int) else DecimalValue(d) as int)
  {
  }

  lemma SignedNumeralParts(sign: string, d: string, rest: string)
    requires sign == "" || sign == "+" || sign == "-"
    requires d != [] && AllDigits(d)
    ensures var t := sign + d + rest;
      && !IsWhitespace(t[0])
      && SignLength(t) == |sign|
      && t[|sign|..] == d + rest
      && (t[0] == '-' <==> sign == "-")
  {
    var t := sign + d + rest;
    assert t[|sign|..] == d + rest;
    if sign == "" {
      assert t[0] == d[0];
    } else {
      assert t[0] == sign[0];
    }
  }

  /** A string without any digit is NaN to `parseInt`. */
  lemma ParseIntWithoutDigits(s: string)
    requires NoDigits(s)
    ensures ParseInt(s) == None
  {
  }

  /** `parseInt("123abc", 10)` is 123. */
  lemma ParseIntNumericPrefixExample()
    ensures ParseInt("123abc") == Some(123)
  {
    assert TrimStart("123abc") == "123abc";
    assert "123abc"[0..] == "123abc";
    DigitPrefixOfNumeral("123", "abc");
    assert "123" + "abc" == "123abc";
    assert DecimalValue("123") == 123 by {
      assert "123"[..2] == "12";
      assert "12"[..1] == "1";
      assert "1"[..0] == "";
    }
  }
}
