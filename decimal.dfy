/** Python's `int(text)` on the auto-refresh input, and `str(n)` for its default text. */
module Decimal {
  import opened Wrappers

  predicate IsDigit(ch: char)
  {
    '0' <= ch <= '9'
  }

  predicate IsSpace(ch: char)
  {
    ch == ' ' || ch == '\t' || ch == '\n' || ch == '\r'
  }

  predicate AllDigits(s: string)
  {
    forall i | 0 <= i < |s| :: IsDigit(s[i])
  }

  /** The number of blanks that open `s`. */
  function LeadingBlanks(s: string): (k: nat)
    ensures k <= |s|
    ensures forall i | 0 <= i < k :: IsSpace(s[i])
    ensures k < |s| ==> !IsSpace(s[k])
  {
    if s == [] || !IsSpace(s[0]) then 0 else 1 + LeadingBlanks(s[1..])
  }

  /** The length of `s` once the blanks that close it are dropped. */
  function TrimmedEnd(s: string): (k: nat)
    ensures k <= |s|
    ensures forall i | k <= i < |s| :: IsSpace(s[i])
    ensures k > 0 ==> !IsSpace(s[k - 1])
  {
    if s == [] || !IsSpace(s[|s| - 1]) then |s| else TrimmedEnd(s[..|s| - 1])
  }

  /** `s` without leading or trailing blanks, as `int()` ignores them: a slice of `s` that
      only blanks surround and that neither starts nor ends with one. */
  function Strip(s: string): (t: string)
    ensures |t| <= |s|
    ensures t != [] ==> !IsSpace(t[0]) && !IsSpace(t[|t| - 1])
    ensures exists a, b | 0 <= a <= b <= |s| ::
      && t == s[a..b]
      && (forall k | 0 <= k < a :: IsSpace(s[k]))
      && (forall k | b <= k < |s| :: IsSpace(s[k]))
  {
    var a := LeadingBlanks(s);
    var b := TrimmedEnd(s);
    if b <= a then
      assert s[a..a] == [];
      []
    else
      s[a..b]
  }

  /** An optional sign followed by at least one decimal digit. */
  predicate IsNumeral(t: string)
  {
    if t != [] && (t[0] == '+' || t[0] == '-') then |t| > 1 && AllDigits(t[1..])
    else t != [] && AllDigits(t)
  }

  /** The value of a string of decimal digits, most significant digit first. */
  function DigitsValue(s: string): nat
    requires AllDigits(s)
  {
    if s == [] then 0
    else DigitsValue(s[..|s| - 1]) * 10 + (s[|s| - 1] as int - '0' as int)
  }

  /** `int(text)`: an optional sign and at least one decimal digit, between optional blanks;
      None where Python raises ValueError. */
  function ParseInt(text: string): (r: Option<int>)
    ensures r.Some? <==> IsNumeral(Strip(text))
    ensures r.Some? && r.value < 0 ==> Strip(text)[0] == '-'
    ensures r.Some? && Strip(text)[0] == '-' ==> r.value <= 0
    ensures r.Some? && IsDigit(Strip(text)[0]) ==> r.value == DigitsValue(Strip(text))
    ensures r.Some? && Strip(text)[0] == '+' ==> r.value == DigitsValue(Strip(text)[1..])
    ensures r.Some? && Strip(text)[0] == '-' ==> r.value == -(DigitsValue(Strip(text)[1..]) as int)
  {
    var t := Strip(text);
    if t != [] && (t[0] == '+' || t[0] == '-') then
      var digits := t[1..];
      if digits != [] && AllDigits(digits) then
        var v: int := DigitsValue(digits);
        Some(if t[0] == '-' then -v else v)
      else None
    else if t != [] && AllDigits(t) then Some(DigitsValue(t))
    else None
  }

  /** `str(n)` for a natural number: its decimal digits without leading zeros. */
  function ToDecimal(n: nat): (s: string)
    ensures s != [] && AllDigits(s)
  {
    if n < 10 then ['0' + n as char]
    else ToDecimal(n / 10) + ['0' + (n % 10) as char]
  }

  lemma {:induction false} DigitsValueOfDecimal(n: nat)
    ensures DigitsValue(ToDecimal(n)) == n
  {
    if n >= 10 {
      DigitsValueOfDecimal(n / 10);
      var s := ToDecimal(n);
      assert s[..|s| - 1] == ToDecimal(n / 10);
    }
  }

  lemma StripUnblanked(s: string)
    requires s != [] && !IsSpace(s[0]) && !IsSpace(s[|s| - 1])
    ensures Strip(s) == s
  {
  }

  /** Reading back what `str` wrote gives the number: `int(str(n)) == n`. */
  lemma DecimalRoundTrip(n: nat)
    ensures ParseInt(ToDecimal(n)) == Some(n)
  {
    var s := ToDecimal(n);
    StripUnblanked(s);
    DigitsValueOfDecimal(n);
  }

  /** A minus sign in front of `str(n)` reads back as `-n`. */
  lemma NegativeRoundTrip(n: nat)
    ensures ParseInt("-" + ToDecimal(n)) == Some(-(n as int))
  {
    var s := "-" + ToDecimal(n);
    StripUnblanked(s);
    assert s[1..] == ToDecimal(n);
    DigitsValueOfDecimal(n);
  }

  /** One blank before and a line break after a blank-free string are stripped away. */
  lemma StripPadded(d: string)
    requires d != [] && !IsSpace(d[0]) && !IsSpace(d[|d| - 1])
    ensures Strip(" " + d + "\n") == d
  {
    var s := " " + d + "\n";
    assert s[1..] == d + "\n";
    assert s[..|s| - 1] == " " + d;
    assert LeadingBlanks(d + "\n") == 0;
    assert LeadingBlanks(s) == 1;
    assert TrimmedEnd(" " + d) == |s| - 1;
    assert s[1..|s| - 1] == d;
  }

  /** Blanks around a number do not change what `int()` reads. */
  lemma BlanksIgnored(n: nat)
    ensures ParseInt(" " + ToDecimal(n) + "\n") == Some(n)
  {
    var d := ToDecimal(n);
    StripPadded(d);
    StripUnblanked(d);
    DecimalRoundTrip(n);
  }

  /** Zeros in front of a string of digits do not change its value. */
  lemma {:induction false} LeadingZeros(zeros: string, d: string)
    requires forall i | 0 <= i < |zeros| :: zeros[i] == '0'
    requires AllDigits(d)
    ensures AllDigits(zeros + d) && DigitsValue(zeros + d) == DigitsValue(d)
  {
    if d == [] {
      assert zeros + d == zeros;
      if zeros != [] {
        LeadingZeros(zeros[..|zeros| - 1], []);
        assert zeros[..|zeros| - 1] + [] == zeros[..|zeros| - 1];
      }
    } else {
      LeadingZeros(zeros, d[..|d| - 1]);
      assert (zeros + d)[..|zeros + d| - 1] == zeros + d[..|d| - 1];
    }
  }

  /** `int()` reads a blank-free string of digits as its value. */
  lemma ParseIntDigits(t: string)
    requires t != [] && AllDigits(t)
    ensures ParseInt(t) == Some(DigitsValue(t))
  {
    assert IsDigit(t[0]) && IsDigit(t[|t| - 1]);
    StripUnblanked(t);
  }

  /** `int()` reads a sign followed by a string of digits as the signed value. */
  lemma ParseIntSigned(sign: char, t: string)
    requires sign == '+' || sign == '-'
    requires t != [] && AllDigits(t)
    ensures ParseInt([sign] + t) == Some(if sign == '-' then -(DigitsValue(t) as int) else DigitsValue(t))
  {
    var s := [sign] + t;
    assert s[|s| - 1] == t[|t| - 1];
    assert IsDigit(s[|s| - 1]);
    StripUnblanked(s);
    assert s[1..] == t;
  }

  /** What `int()` reads from an unsigned numeral: any number of leading zeros, then the
      digits of `n`. Every string of digits has this form. */
  lemma UnsignedNumeral(zeros: string, n: nat)
    requires forall i | 0 <= i < |zeros| :: zeros[i] == '0'
    ensures ParseInt(zeros + ToDecimal(n)) == Some(n)
  {
    PaddedDigits(zeros, n);
    ParseIntDigits(zeros + ToDecimal(n));
  }

  /** What `int()` reads from a signed numeral: a sign, any number of leading zeros, then the
      digits of `n`. Together with UnsignedNumeral this covers every numeral. */
  lemma SignedNumeral(sign: char, zeros: string, n: nat)
    requires sign == '+' || sign == '-'
    requires forall i | 0 <= i < |zeros| :: zeros[i] == '0'
    ensures ParseInt([sign] + zeros + ToDecimal(n)) == Some(if sign == '-' then -(n as int) else n)
  {
    var d := zeros + ToDecimal(n);
    PaddedDigits(zeros, n);
    assert [sign] + zeros + ToDecimal(n) == [sign] + d;
    ParseIntSigned(sign, d);
  }

  /** The digits of `n` behind any zeros are digits worth `n`. */
  lemma PaddedDigits(zeros: string, n: nat)
    requires forall i | 0 <= i < |zeros| :: zeros[i] == '0'
    ensures zeros + ToDecimal(n) != [] && AllDigits(zeros + ToDecimal(n))
    ensures DigitsValue(zeros + ToDecimal(n)) == n
  {
    LeadingZeros(zeros, ToDecimal(n));
    DigitsValueOfDecimal(n);
  }
}
