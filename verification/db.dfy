/** The payroll field codecs of the data-access module: the IBM i date
    decoder, the absent-amount branch of the currency formatter and the SSN
    masker, plus the shape of the employee record the record store returns. */
module Db {
  import opened Wrappers
  import opened Text
  import opened Numbers

  /** The employee master fields the login handler reads; each may be missing.
      `number` is EMEMP, `hiddenId` EMQEM, `firstName` EMFNM, `lastName` EMLNM,
      `position` EMPOS and `department` EMOFF. */
  datatype EmployeeRecord = EmployeeRecord(
    number: Option<int>,
    hiddenId: Option<int>,
    firstName: Option<string>,
    lastName: Option<string>,
    position: Option<string>,
    department: Option<string>)

  // ---------------------------------------------------------------------------
  // Dates: YYYYMMDD integers shown as MM/DD/YYYY
  // ---------------------------------------------------------------------------

  /** The decimal string of a date code, left-padded with '0' to eight characters. */
  function PaddedDate(code: int): (p: string)
    ensures |p| >= 8
    ensures var s := IntToString(code);
      && |p| == (if |s| >= 8 then |s| else 8)
      && p[|p| - |s|..] == s
      && (forall i :: 0 <= i < |p| - |s| ==> p[i] == '0')
  {
    PadStart(IntToString(code), 8, '0')
  }

  /** The month, day and year parts of an at least eight-character date string,
      joined by '/': a layout `MM/DD/YYYY` whose year, month and day fields,
      read in that order, are the first eight characters. */
  function Rearrange(dateStr: string): (r: string)
    requires |dateStr| >= 8
    ensures |r| == 10 && r[2] == '/' && r[5] == '/'
    ensures r[6..] + r[..2] + r[3..5] == dateStr[..8]
  {
    var year := dateStr[0..4];
    var month := dateStr[4..6];
    var day := dateStr[6..8];
    var r := month + "/" + day + "/" + year;
    assert r[..2] == month && r[3..5] == day && r[6..] == year;
    assert dateStr[..8] == year + month + day;
    r
  }

  /** `formatIBMDate`: `None` (null) for an absent or zero code; otherwise the
      padded code rearranged as `MM/DD/YYYY`. No calendar check is made, and
      characters beyond the eighth are dropped. */
  function FormatIBMDate(ibmDate: Option<int>): (r: Option<string>)
    ensures r.None? <==> ibmDate == None || ibmDate == Some(0)
    ensures r.Some? ==> |r.value| == 10 && r.value[2] == '/' && r.value[5] == '/'
    ensures r.Some? ==>
      r.value[6..] + r.value[..2] + r.value[3..5] == PaddedDate(ibmDate.value)[..8]
  {
    if ibmDate.None? || ibmDate.value == 0 then None
    else Some(Rearrange(PaddedDate(ibmDate.value)))
  }

  /** A display date `MM/DD/YYYY` whose three fields are all digits. */
  predicate IsDisplayDate(s: string) {
    && |s| == 10 && s[2] == '/' && s[5] == '/'
    && AllDigits(s[0..2]) && AllDigits(s[3..5]) && AllDigits(s[6..10])
  }

  /** The date code a display date stands for: year * 10000 + month * 100 + day. */
  function IBMDateOf(s: string): (code: Option<int>)
    ensures code.Some? <==> IsDisplayDate(s)
    ensures code.Some? ==> 0 <= code.value < Pow10(8)
  {
    if IsDisplayDate(s) then
      Some(DecimalValue(s[6..10]) * 10000 + DecimalValue(s[0..2]) * 100 + DecimalValue(s[3..5]))
    else None
  }

  lemma {:induction false} NatToStringShort(n: nat, k: nat)
    requires k >= 1 && n < Pow10(k)
    ensures |NatToString(n)| <= k
  {
    if n >= 10 {
      NatToStringShort(n / 10, k - 1);
    }
  }

  /** Below 10^8 the padded code is exactly eight digits and denotes the code. */
  lemma PaddedDateValue(d: nat)
    requires d < Pow10(8)
    ensures |PaddedDate(d)| == 8 && AllDigits(PaddedDate(d))
    ensures DecimalValue(PaddedDate(d)) == d
  {
    var n := NatToString(d);
    NatToStringShort(d, 8);
    if |n| < 8 {
      assert PaddedDate(d) == Repeat('0', 8 - |n|) + n;
      LeadingZerosValue(8 - |n|, n);
    }
  }

  /** An eight-digit string splits into values year, month and day with
      value = year * 10000 + month * 100 + day. */
  lemma SplitEightDigits(p: string)
    requires |p| == 8 && AllDigits(p)
    ensures AllDigits(p[0..4]) && AllDigits(p[4..6]) && AllDigits(p[6..8])
    ensures DecimalValue(p) ==
      DecimalValue(p[0..4]) * 10000 + DecimalValue(p[4..6]) * 100 + DecimalValue(p[6..8])
  {
    var q := p[..6];
    SplitDigitsAt(p, 6);
    SplitDigitsAt(q, 4);
    assert q[..4] == p[0..4] && q[4..] == p[4..6] && p[6..] == p[6..8];
    assert Pow10(2) == 100;
    var a, b, c := DecimalValue(p[0..4]), DecimalValue(p[4..6]), DecimalValue(p[6..8]);
    Regroup100(DecimalValue(p), DecimalValue(q), a, b, c);
  }

  lemma Regroup100(v: int, w: int, a: int, b: int, c: int)
    requires v == w * 100 + c && w == a * 100 + b
    ensures v == a * 10000 + b * 100 + c
  {
  }

  /** A numeral split in two: the head's value shifted past the tail, plus the tail's. */
  lemma SplitDigitsAt(p: string, k: nat)
    requires AllDigits(p) && k <= |p|
    ensures AllDigits(p[..k]) && AllDigits(p[k..])
    ensures DecimalValue(p) == DecimalValue(p[..k]) * Pow10(|p| - k) + DecimalValue(p[k..])
  {
    assert p == p[..k] + p[k..];
    assert |p[k..]| == |p| - k;
    DecimalValueAppend(p[..k], p[k..]);
  }

  /** The fields of a decoded date are digits, and they recombine to the code. */
  lemma FormatIBMDateRecombines(d: int)
    requires 0 < d < Pow10(8)
    ensures FormatIBMDate(Some(d)).Some?
    ensures var r := FormatIBMDate(Some(d)).value;
      && IsDisplayDate(r)
      && DecimalValue(r[6..10]) * 10000 + DecimalValue(r[0..2]) * 100 + DecimalValue(r[3..5]) == d
  {
    var p := PaddedDate(d);
    PaddedDateValue(d);
    SplitEightDigits(p);
    var r := FormatIBMDate(Some(d)).value;
    assert r[6..10] == p[0..4] && r[0..2] == p[4..6] && r[3..5] == p[6..8];
  }

  /** The fields of a decoded date are the year, month and day digits of the
      code: its quotient by 10000, its hundreds taken modulo 100 and its
      remainder by 100. */
  lemma FormatIBMDateFields(d: int)
    requires 0 < d < Pow10(8)
    ensures FormatIBMDate(Some(d)).Some?
    ensures var r := FormatIBMDate(Some(d)).value;
      && IsDisplayDate(r)
      && DecimalValue(r[6..10]) == d / 10000
      && DecimalValue(r[0..2]) == d / 100 % 100
      && DecimalValue(r[3..5]) == d % 100
  {
    FormatIBMDateRecombines(d);
    var r := FormatIBMDate(Some(d)).value;
    DateDigits(d, DecimalValue(r[6..10]), DecimalValue(r[0..2]), DecimalValue(r[3..5]));
  }

  lemma DateDigits(d: int, year: nat, month: nat, day: nat)
    requires month < 100 && day < 100
    requires d == year * 10000 + month * 100 + day
    ensures year == d / 10000 && month == d / 100 % 100 && day == d % 100
  {
    assert d == (year * 100 + month) * 100 + day;
    assert d / 100 == year * 100 + month && d % 100 == day;
    assert (year * 100 + month) % 100 == month && (year * 100 + month) / 100 == year;
    assert d / 10000 == d / 100 / 100;
  }

  /** Round trip: reading a decoded date back gives the code, for every code of
      at most eight digits. */
  lemma IBMDateRoundTrip(d: int)
    requires 0 < d < Pow10(8)
    ensures FormatIBMDate(Some(d)).Some?
    ensures IBMDateOf(FormatIBMDate(Some(d)).value) == Some(d)
  {
    FormatIBMDateRecombines(d);
  }

  /** The number of '0' characters at the start of `s`. */
  function LeadingZeros(s: string): (k: nat)
    ensures k <= |s| && s[..k] == Repeat('0', k)
    ensures k == |s| || s[k] != '0'
  {
    if |s| > 0 && s[0] == '0' then
      var k := 1 + LeadingZeros(s[1..]);
      assert s[..k] == [s[0]] + s[1..][..k - 1];
      k
    else 0
  }

  /** A numeral with a non-zero first digit denotes a positive number. */
  lemma LeadingDigitPositive(q: string)
    requires q != [] && AllDigits(q) && q[0] != '0'
    ensures DecimalValue(q) >= 1
  {
    assert q == [q[0]] + q[1..];
    DecimalValueAppend([q[0]], q[1..]);
    assert [q[0]][..0] == [];
    assert DecimalValue([q[0]]) == DigitValue(q[0]) >= 1;
  }

  /** A numeral with a non-zero first digit is the numeral of its value. */
  lemma {:induction false} NatToStringOfValue(p: string)
    requires p != [] && AllDigits(p) && p[0] != '0'
    ensures NatToString(DecimalValue(p)) == p
    decreases |p|
  {
    if |p| > 1 {
      var q := p[..|p| - 1];
      var c := p[|p| - 1];
      NatToStringOfValue(q);
      LeadingDigitPositive(q);
      var v := DecimalValue(p);
      assert v == DecimalValue(q) * 10 + DigitValue(c);
      assert v / 10 == DecimalValue(q) && v % 10 == DigitValue(c);
      assert NatToString(v) == NatToString(DecimalValue(q)) + [DigitChar(DigitValue(c))];
      assert p == q + [c];
    }
  }

  /** An eight-digit string with a non-zero value is the padded code of its value. */
  lemma PaddedDateOfValue(p: string)
    requires |p| == 8 && AllDigits(p) && DecimalValue(p) > 0
    ensures PaddedDate(DecimalValue(p)) == p
  {
    var z := LeadingZeros(p);
    var rest := p[z..];
    assert p == Repeat('0', z) + rest;
    LeadingZerosValue(z, rest);
    assert rest != [];
    NatToStringOfValue(rest);
    var v := DecimalValue(p);
    assert IntToString(v) == rest;
    if z > 0 {
      assert PadStart(rest, 8, '0') == Repeat('0', z) + rest;
    }
  }

  /** Round trip in the other direction: every display date with a non-zero
      code is what its code decodes to. */
  lemma DisplayDateRoundTrip(s: string)
    requires IBMDateOf(s).Some? && IBMDateOf(s).value != 0
    ensures FormatIBMDate(IBMDateOf(s)) == Some(s)
  {
    var code := IBMDateOf(s).value;
    var p := DisplayDigits(s);
    assert DecimalValue(p) == code;
    PaddedDateOfValue(p);
    assert PaddedDate(code) == p;
    var r := Rearrange(p);
    assert FormatIBMDate(Some(code)) == Some(r);
    assert p[..8] == p;
    SameFields(r, s);
  }

  /** The year, month and day digits of a display date, in that order: an
      eight-digit string denoting the date's code. */
  function DisplayDigits(s: string): (p: string)
    requires IsDisplayDate(s)
    ensures |p| == 8 && AllDigits(p)
    ensures DecimalValue(p) == IBMDateOf(s).value
    ensures p == s[6..] + s[..2] + s[3..5]
  {
    var p := s[6..10] + s[0..2] + s[3..5];
    assert p[0..4] == s[6..10] && p[4..6] == s[0..2] && p[6..8] == s[3..5];
    SplitEightDigits(p);
    p
  }

  /** Two `MM/DD/YYYY` layouts with the same year, month and day fields are equal. */
  lemma SameFields(r: string, s: string)
    requires |r| == 10 && r[2] == '/' && r[5] == '/'
    requires |s| == 10 && s[2] == '/' && s[5] == '/'
    requires r[6..] + r[..2] + r[3..5] == s[6..] + s[..2] + s[3..5]
    ensures r == s
  {
    var a, b := r[6..] + r[..2] + r[3..5], s[6..] + s[..2] + s[3..5];
    forall i | 0 <= i < 10 ensures r[i] == s[i] {
      if i < 2 { assert r[i] == a[4 + i] && s[i] == b[4 + i]; }
      else if 3 <= i < 5 { assert r[i] == a[3 + i] && s[i] == b[3 + i]; }
      else if 6 <= i { assert r[i] == a[i - 6] && s[i] == b[i - 6]; }
    }
  }

  /** No calendar validation: every non-zero code, however out of range its
      month or day, decodes to a ten-character string with '/' at indices 2 and 5;
      a 13th month is shown as "13". */
  lemma NoCalendarValidation()
    ensures FormatIBMDate(Some(20231332)) == Some("13/32/2023")
  {
    var s := "13/32/2023";
    assert s[6..10] == "2023" && s[0..2] == "13" && s[3..5] == "32";
    assert DecimalValue("2023") == 2023 by {
      assert "2023"[..3] == "202" && "202"[..2] == "20" && "20"[..1] == "2" && "2"[..0] == "";
    }
    assert DecimalValue("13") == 13 by {
      assert "13"[..1] == "1" && "1"[..0] == "";
    }
    assert DecimalValue("32") == 32 by {
      assert "32"[..1] == "3" && "3"[..0] == "";
    }
    assert IBMDateOf(s) == Some(20231332);
    DisplayDateRoundTrip(s);
  }

  /** A code of more than eight digits loses its trailing digits: appending a
      digit to a code of eight or more digits does not change the decoded date. */
  lemma FormatIBMDateDropsExtraDigits(n: int, digit: nat)
    requires n >= Pow10(7) && digit < 10
    ensures FormatIBMDate(Some(10 * n + digit)) == FormatIBMDate(Some(n))
  {
    PaddedDateShift(n, digit);
    FormatIBMDateOfCode(n);
    FormatIBMDateOfCode(10 * n + digit);
  }

  lemma FormatIBMDateOfCode(code: int)
    requires code != 0
    ensures FormatIBMDate(Some(code)) == Some(Rearrange(PaddedDate(code)))
  {
  }

  /** Appending a digit to a code of eight or more digits appends a character
      past the eighth of its padded string, which is not rearranged. */
  lemma PaddedDateShift(n: int, digit: nat)
    requires n >= Pow10(7) && digit < 10
    ensures |PaddedDate(n)| >= 8 && |PaddedDate(10 * n + digit)| >= 8
    ensures Rearrange(PaddedDate(10 * n + digit)) == Rearrange(PaddedDate(n))
  {
    var m := 10 * n + digit;
    NatToStringShift(n, digit);
    PaddedDateOfLong(n);
    PaddedDateOfLong(m);
    RearrangeAppend(NatToString(n), DigitChar(digit));
  }

  /** A character appended past the eighth is not rearranged. */
  lemma RearrangeAppend(a: string, c: char)
    requires |a| >= 8
    ensures Rearrange(a + [c]) == Rearrange(a)
  {
    var b := a + [c];
    assert b[..8] == a[..8] by {
      assert forall i :: 0 <= i < 8 ==> b[i] == a[i];
    }
    RearrangeFirstEight(a, b);
  }

  /** Only the first eight characters of a date string are rearranged. */
  lemma RearrangeFirstEight(a: string, b: string)
    requires |a| >= 8 && |b| >= 8 && a[..8] == b[..8]
    ensures Rearrange(a) == Rearrange(b)
  {
    assert a[0..4] == b[0..4] && a[4..6] == b[4..6] && a[6..8] == b[6..8] by {
      assert a[0..4] == a[..8][0..4] && b[0..4] == b[..8][0..4];
      assert a[4..6] == a[..8][4..6] && b[4..6] == b[..8][4..6];
      assert a[6..8] == a[..8][6..8] && b[6..8] == b[..8][6..8];
    }
  }

  /** A code of eight or more digits needs no padding. */
  lemma PaddedDateOfLong(n: int)
    requires n >= Pow10(7)
    ensures PaddedDate(n) == NatToString(n) && |NatToString(n)| >= 8
  {
    NatToStringLength(n, 7);
  }

  // ---------------------------------------------------------------------------
  // Currency
  // ---------------------------------------------------------------------------

  /** `formatCurrency`: "$0.00" for an absent amount; otherwise the locale
      formatter, `format`, applied to the amount in dollars. */
  function FormatCurrency(cents: Option<int>, format: real -> string): (r: string)
    ensures cents.None? ==> r == "$0.00"
    ensures cents.Some? ==> r == format(cents.value as real / 100.0)
  {
    if cents.None? then "$0.00" else format(cents.value as real / 100.0)
  }

  // ---------------------------------------------------------------------------
  // SSN masking
  // ---------------------------------------------------------------------------

  const FullyMasked: string := "XXX-XX-XXXX"
  const MaskPrefix: string := "XXX-XX-"

  /** `s.replace(/\D/g, '')`: the digits of `s`, in order. */
  function StripNonDigits(s: string): (r: string)
    ensures AllDigits(r) && |r| <= |s|
  {
    if s == [] then []
    else (if IsDigit(s[0]) then [s[0]] else []) + StripNonDigits(s[1..])
  }

  /** Stripping distributes over concatenation. */
  lemma {:induction false} StripNonDigitsAppend(a: string, b: string)
    ensures StripNonDigits(a + b) == StripNonDigits(a) + StripNonDigits(b)
    decreases |a|
  {
    if a != [] {
      var head := if IsDigit(a[0]) then [a[0]] else [];
      assert (a + b)[0] == a[0] && (a + b)[1..] == a[1..] + b;
      assert StripNonDigits(a + b) == head + StripNonDigits(a[1..] + b);
      StripNonDigitsAppend(a[1..], b);
      assert StripNonDigits(a) == head + StripNonDigits(a[1..]);
    } else {
      assert a + b == b;
    }
  }

  /** A string of digits is left as it is. */
  lemma {:induction false} StripAllDigits(s: string)
    requires AllDigits(s)
    ensures StripNonDigits(s) == s
    decreases |s|
  {
    if s != [] {
      StripAllDigits(s[1..]);
      assert s == [s[0]] + s[1..];
    }
  }

  /** A string without digits strips to the empty string. */
  lemma {:induction false} StripNoDigits(s: string)
    requires NoDigits(s)
    ensures StripNonDigits(s) == []
    decreases |s|
  {
    if s != [] {
      StripNoDigits(s[1..]);
    }
  }

  /** `maskSSN`: the fully masked form for an absent or empty value or one with
      fewer than four digits; otherwise the mask prefix and the last four digits.
      The result never shows a digit that is not among the last four of the input. */
  function MaskSSN(ssn: Option<string>): (r: string)
    ensures |r| == 11 && r[..7] == MaskPrefix
    ensures ssn.None? || ssn == Some("") ==> r == FullyMasked
    ensures ssn.Some? && |StripNonDigits(ssn.value)| < 4 ==> r == FullyMasked
    ensures ssn.Some? && |StripNonDigits(ssn.value)| >= 4 ==>
      EndsWith(StripNonDigits(ssn.value), r[7..])
    ensures StripNonDigits(r) == [] ||
      (ssn.Some? && |StripNonDigits(r)| == 4 && EndsWith(StripNonDigits(ssn.value), StripNonDigits(r)))
  {
    if ssn.None? || ssn.value == "" then
      FullyMaskedFacts();
      FullyMasked
    else
      var clean := StripNonDigits(ssn.value);
      if |clean| < 4 then
        FullyMaskedFacts();
        FullyMasked
      else
        ShowLastFour(clean)
  }

  /** The mask prefix followed by the last four of at least four digits. */
  function ShowLastFour(clean: string): (r: string)
    requires AllDigits(clean) && |clean| >= 4
    ensures |r| == 11 && r[..7] == MaskPrefix
    ensures EndsWith(clean, r[7..])
    ensures StripNonDigits(r) == r[7..]
  {
    var last4 := clean[|clean| - 4..];
    DigitsOfSuffix(clean, |clean| - 4);
    StripAfterPrefix(last4);
    assert |MaskPrefix| == 7 && |last4| == 4;
    assert (MaskPrefix + last4)[..7] == MaskPrefix;
    assert (MaskPrefix + last4)[7..] == last4;
    MaskPrefix + last4
  }

  /** The fully masked form is the mask prefix followed by four non-digits. */
  lemma FullyMaskedFacts()
    ensures |FullyMasked| == 11 && FullyMasked[..7] == MaskPrefix
    ensures StripNonDigits(FullyMasked) == []
  {
    FullyMaskedNoDigits();
  }

  lemma FullyMaskedNoDigits()
    ensures StripNonDigits(FullyMasked) == []
  {
    assert NoDigits(FullyMasked);
    StripNoDigits(FullyMasked);
  }

  lemma MaskPrefixHasNoDigits()
    ensures StripNonDigits(MaskPrefix) == []
  {
    assert NoDigits(MaskPrefix);
    StripNoDigits(MaskPrefix);
  }

  /** The mask prefix contributes no digits. */
  lemma StripAfterPrefix(x: string)
    ensures StripNonDigits(MaskPrefix + x) == StripNonDigits(x)
  {
    StripNonDigitsAppend(MaskPrefix, x);
    MaskPrefixHasNoDigits();
  }

  lemma DigitsOfSuffix(s: string, k: nat)
    requires AllDigits(s) && k <= |s|
    ensures StripNonDigits(s[k..]) == s[k..]
  {
    assert AllDigits(s[k..]) by {
      forall i | 0 <= i < |s| - k ensures IsDigit(s[k..][i]) {
        assert s[k..][i] == s[k + i];
      }
    }
    StripAllDigits(s[k..]);
  }

  /** Masking a masked value gives it back. */
  lemma MaskSSNIdempotent(ssn: Option<string>)
    ensures MaskSSN(Some(MaskSSN(ssn))) == MaskSSN(ssn)
  {
    var r := MaskSSN(ssn);
    if r == FullyMasked {
      FullyMaskedFacts();
    }
  }

  /** Removing a non-digit from the value does not change its digits. */
  lemma StripNonDigitsSkips(a: string, c: char, b: string)
    requires !IsDigit(c)
    ensures StripNonDigits(a + [c] + b) == StripNonDigits(a + b)
  {
    assert a + [c] + b == a + ([c] + b);
    StripNonDigitsAppend(a, [c] + b);
    StripNonDigitsAppend([c], b);
    StripNonDigitsAppend(a, b);
    StripNoDigits([c]);
  }

  /** Inserting a non-digit anywhere in the value does not change its mask. */
  lemma MaskSSNIgnoresNonDigit(a: string, c: char, b: string)
    requires !IsDigit(c)
    ensures MaskSSN(Some(a + [c] + b)) == MaskSSN(Some(a + b))
  {
    StripNonDigitsSkips(a, c, b);
    MaskSSNDependsOnDigitsOnly(a + [c] + b, a + b);
  }

  /** The mask depends on the digits of the value only. */
  lemma MaskSSNDependsOnDigitsOnly(s: string, t: string)
    requires StripNonDigits(s) == StripNonDigits(t)
    ensures MaskSSN(Some(s)) == MaskSSN(Some(t))
  {
  }

  /** A full nine-digit SSN shows its last four digits. */
  lemma MaskSSNFullExample()
    ensures MaskSSN(Some("123456789")) == "XXX-XX-6789"
  {
    var s := "123456789";
    assert AllDigits(s);
    StripAllDigits(s);
    LastFourExample();
  }

  lemma LastFourExample()
    ensures ShowLastFour("123456789") == "XXX-XX-6789"
  {
    assert "123456789"[5..] == "6789";
    assert MaskPrefix + "6789" == "XXX-XX-6789";
  }

  /** A two-digit value is fully masked. */
  lemma MaskSSNShortExample()
    ensures MaskSSN(Some("12")) == FullyMasked
  {
    assert AllDigits("12");
    StripAllDigits("12");
  }
}
