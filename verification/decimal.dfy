/**
 Decimal text of integers: `'%0d' % n` and `std::to_string(n)` for naturals,
 and Python 2's `int(text)` for the integer columns of an overlap line.
 */
module Decimal {
  import opened Wrappers

  predicate IsDigit(c: char) { '0' <= c <= '9' }

  predicate AllDigits(s: string) { forall i :: 0 <= i < |s| ==> IsDigit(s[i]) }

  function DigitValue(c: char): nat
    requires IsDigit(c)
  {
    c as int - '0' as int
  }

  function DigitChar(d: nat): (c: char)
    requires d < 10
    ensures IsDigit(c) && DigitValue(c) == d
  {
    ('0' as int + d) as char
  }

  /** The value of a run of decimal digits, most significant first. */
  function DigitsValue(s: string): nat
    requires AllDigits(s)
  {
    if |s| == 0 then 0 else 10 * DigitsValue(s[..|s| - 1]) + DigitValue(s[|s| - 1])
  }

  /** Shortest decimal text of `n`: no leading zero unless `n` is zero. */
  predicate Canonical(s: string) {
    |s| >= 1 && AllDigits(s) && (s[0] == '0' ==> |s| == 1)
  }

  /** Decimal text of a natural number. */
  function NatToString(n: nat): (s: string)
    ensures Canonical(s)
  {
    if n < 10 then [DigitChar(n)]
    else
      var s := NatToString(n / 10) + [DigitChar(n % 10)];
      assert s[0] == NatToString(n / 10)[0];
      s
  }

  /** Reading back the decimal text of `n` gives `n`. */
  lemma {:induction false} NatToStringValue(n: nat)
    ensures DigitsValue(NatToString(n)) == n
  {
    if n >= 10 {
      var s := NatToString(n);
      assert s[..|s| - 1] == NatToString(n / 10);
      NatToStringValue(n / 10);
    }
  }

  /** Writing the value of a canonical digit string gives that string back. */
  lemma {:induction false} CanonicalRoundTrip(s: string)
    requires Canonical(s)
    ensures NatToString(DigitsValue(s)) == s
    decreases |s|
  {
    if |s| > 1 {
      var init := s[..|s| - 1];
      assert Canonical(init);
      assert DigitsValue(init) >= 1 by { LeadingDigitPositive(init); }
      CanonicalRoundTrip(init);
      var n := DigitsValue(s);
      assert n / 10 == DigitsValue(init) && n % 10 == DigitValue(s[|s| - 1]);
      assert s == init + [s[|s| - 1]];
    }
  }

  lemma {:induction false} LeadingDigitPositive(s: string)
    requires Canonical(s) && s[0] != '0'
    ensures DigitsValue(s) >= 1
    decreases |s|
  {
    if |s| > 1 {
      assert Canonical(s[..|s| - 1]);
      LeadingDigitPositive(s[..|s| - 1]);
    }
  }

  /** Distinct naturals have distinct decimal texts. */
  lemma NatToStringInjective(a: nat, b: nat)
    requires NatToString(a) == NatToString(b)
    ensures a == b
  {
    NatToStringValue(a);
    NatToStringValue(b);
  }

  /** The characters Python 2's `str.strip()` and `int()` treat as white space. */
  predicate IsSpace(c: char) {
    c == ' ' || c == '\t' || c == '\n' || c == '\r' || c == '\U{0B}' || c == '\U{0C}'
  }

  function StripLeft(s: string): (t: string)
    ensures |t| <= |s|
    ensures |t| > 0 ==> !IsSpace(t[0])
    ensures forall i :: 0 <= i < |s| - |t| ==> IsSpace(s[i])
  {
    if |s| > 0 && IsSpace(s[0]) then StripLeft(s[1..]) else s
  }

  /** What `StripLeft` keeps is a suffix of its input. */
  lemma {:induction false} StripLeftSuffix(s: string)
    ensures var t := StripLeft(s); t == s[|s| - |t|..]
    decreases |s|
  {
    if |s| > 0 && IsSpace(s[0]) {
      StripLeftSuffix(s[1..]);
    }
  }

  function StripRight(s: string): (t: string)
    ensures |t| <= |s| && t == s[..|t|]
    ensures |t| > 0 ==> !IsSpace(t[|t| - 1])
    ensures forall i :: |t| <= i < |s| ==> IsSpace(s[i])
  {
    if |s| > 0 && IsSpace(s[|s| - 1]) then StripRight(s[..|s| - 1]) else s
  }

  /**
   Python 2 `int(text)` on a byte string: surrounding white space is ignored,
   one optional sign, which white space may follow, then at least one decimal
   digit; anything else is a `ValueError`, modelled as `None`.
   */
  function ParseInt(text: string): Option<int>
  {
    ParseSigned(StripRight(StripLeft(text)))
  }

  /** `int()` after stripping: an optional sign, white space after it, and at least one digit. */
  function ParseSigned(t: string): Option<int>
  {
    if |t| == 0 then None
    else
      var body := if t[0] == '-' || t[0] == '+' then StripLeft(t[1..]) else t;
      if |body| == 0 || !AllDigits(body) then None
      else
        var v: int := DigitsValue(body);
        Some(if t[0] == '-' then -v else v)
  }

  /** White space between the sign and the digits is skipped: `int('- 5')` is `-5`. */
  lemma SpaceAfterSign(t: string, pad: string, digits: string)
    requires |t| > 0 && (t[0] == '-' || t[0] == '+') && t[1..] == pad + digits
    requires forall i :: 0 <= i < |pad| ==> IsSpace(pad[i])
    requires |digits| > 0 && AllDigits(digits)
    ensures var v: int := DigitsValue(digits);
      ParseSigned(t) == Some(if t[0] == '-' then -v else v)
  {
    StripSpaces(pad, digits);
  }

  lemma {:induction false} StripSpaces(pad: string, rest: string)
    requires forall i :: 0 <= i < |pad| ==> IsSpace(pad[i])
    requires |rest| > 0 && !IsSpace(rest[0])
    ensures StripLeft(pad + rest) == rest
    decreases |pad|
  {
    if |pad| > 0 {
      assert (pad + rest)[1..] == pad[1..] + rest;
      StripSpaces(pad[1..], rest);
    } else {
      assert pad + rest == rest;
    }
  }

  /** Decimal text of an integer, with a leading `-` for negatives. */
  function IntToString(n: int): string {
    if n < 0 then "-" + NatToString(-n) else NatToString(n)
  }

  /** `int()` reads back what `IntToString` writes, also with a line break after it. */
  lemma ParseIntRoundTrip(n: int, trailer: string)
    requires forall i :: 0 <= i < |trailer| ==> IsSpace(trailer[i])
    ensures ParseInt(IntToString(n) + trailer) == Some(n)
  {
    var s := IntToString(n);
    SignedRoundTrip(n);
    var text := s + trailer;
    assert text[0] == s[0];
    assert StripLeft(text) == text;
    StripTrailer(s, trailer);
  }

  lemma SignedRoundTrip(n: int)
    ensures var s := IntToString(n); |s| > 0 && !IsSpace(s[0]) && !IsSpace(s[|s| - 1])
    ensures ParseSigned(IntToString(n)) == Some(n)
  {
    if n < 0 {
      NegativeRoundTrip(n);
    } else {
      NatToStringValue(n);
      UnsignedDigits(NatToString(n));
    }
  }

  lemma NegativeRoundTrip(n: int)
    requires n < 0
    ensures ParseSigned(IntToString(n)) == Some(n)
  {
    var digits := NatToString(-n);
    NatToStringValue(-n);
    NegativeText(digits);
    var v: int := DigitsValue(digits);
    assert v == -n;
    assert IntToString(n) == "-" + digits;
    assert ParseSigned("-" + digits) == Some(-v);
  }

  lemma NegativeText(digits: string)
    requires |digits| > 0 && AllDigits(digits)
    ensures ParseSigned("-" + digits) == Some(-(DigitsValue(digits) as int))
  {
    var s := "-" + digits;
    assert s[1..] == [] + digits;
    SpaceAfterSign(s, [], digits);
  }

  /** Without a sign the whole text must be digits. */
  lemma UnsignedDigits(t: string)
    requires |t| > 0 && AllDigits(t)
    ensures ParseSigned(t) == Some(DigitsValue(t))
  {
    assert IsDigit(t[0]);
  }

  lemma {:induction false} StripTrailer(s: string, trailer: string)
    requires |s| > 0 && !IsSpace(s[|s| - 1])
    requires forall i :: 0 <= i < |trailer| ==> IsSpace(trailer[i])
    ensures StripRight(s + trailer) == s
    decreases |trailer|
  {
    if |trailer| > 0 {
      var shorter := trailer[..|trailer| - 1];
      assert (s + trailer)[..|s + trailer| - 1] == s + shorter;
      StripTrailer(s, shorter);
    } else {
      assert s + trailer == s;
    }
  }
}
