/**
  Base-10 numerals: the subset of Python's `int(str)` the reservation tool
  relies on (a non-empty run of ASCII digits, leading zeros allowed), and
  Python's `str(n)` for non-negative `n`.
*/
module Decimal {
  import opened Wrappers

  predicate IsDigit(c: char) {
    '0' <= c <= '9'
  }

  predicate AllDigits(s: string) {
    forall i :: 0 <= i < |s| ==> IsDigit(s[i])
  }

  function DigitValue(c: char): nat
    requires IsDigit(c)
  {
    c as int - '0' as int
  }

  function DigitChar(d: nat): (c: char)
    requires d < 10
    ensures IsDigit(c) && DigitValue(c) == d
  {
    ('0' as int + d) as char
  }

  /** The number a digit string denotes, most significant digit first. */
  function Value(s: string): nat
    requires AllDigits(s)
    decreases |s|
  {
    if s == [] then 0 else Value(s[..|s| - 1]) * 10 + DigitValue(s[|s| - 1])
  }

  /** A numeral as `str` writes it: non-empty, no leading zero unless it is "0". */
  predicate Canonical(s: string) {
    |s| >= 1 && AllDigits(s) && (s[0] == '0' ==> |s| == 1)
  }

  /** Python's `str(n)` for a non-negative integer. */
  function NatToString(n: nat): (s: string)
    ensures Canonical(s)
    decreases n
  {
    if n < 10 then [DigitChar(n)] else NatToString(n / 10) + [DigitChar(n % 10)]
  }

  /**
    `int(s)` on a string of ASCII digits: the number it denotes, or `None` when
    `s` is empty or holds any other character. Python's `int()` accepts more
    (a sign, surrounding whitespace, underscores, non-ASCII digits) and refuses
    numerals longer than its digit limit; neither difference is modelled.
  */
  function ParseNat(s: string): (r: Option<nat>)
    ensures r.Some? <==> s != [] && AllDigits(s)
    ensures r.Some? && Canonical(s) ==> NatToString(r.value) == s
  {
    if s != [] && AllDigits(s) then
      CanonicalValue(s);
      Some(Value(s))
    else None
  }

  /** A digit string that is canonical is what `str` writes for its value. */
  lemma CanonicalValue(s: string)
    requires AllDigits(s)
    ensures Canonical(s) ==> NatToString(Value(s)) == s
  {
    if Canonical(s) {
      NatToStringOfValue(s);
    }
  }

  /** A leading zero does not change the number a digit string denotes. */
  lemma {:induction false} ValueLeadingZero(s: string)
    requires AllDigits(s)
    ensures AllDigits("0" + s) && Value("0" + s) == Value(s)
    decreases |s|
  {
    var t := "0" + s;
    assert AllDigits(t) by {
      assert forall i :: 1 <= i < |t| ==> t[i] == s[i - 1];
    }
    if s != [] {
      var p := s[..|s| - 1];
      ValueLeadingZero(p);
      assert t[..|t| - 1] == "0" + p;
      assert t[|t| - 1] == s[|s| - 1];
    }
  }

  /** `int()` ignores leading zeros: "07" reads as 7, as "7" does. */
  lemma ParseNatLeadingZero(s: string)
    requires s != [] && AllDigits(s)
    ensures ParseNat("0" + s) == ParseNat(s)
  {
    ValueLeadingZero(s);
  }

  /** Reading back what `str` wrote gives the number again. */
  lemma {:induction false} ValueOfNatToString(n: nat)
    ensures Value(NatToString(n)) == n
    decreases n
  {
    if n >= 10 {
      var s := NatToString(n);
      ValueOfNatToString(n / 10);
      assert s[..|s| - 1] == NatToString(n / 10);
    }
  }

  lemma ParseNatOfNatToString(n: nat)
    ensures ParseNat(NatToString(n)) == Some(n)
  {
    ValueOfNatToString(n);
  }

  /** `str` is injective: different numbers are written differently. */
  lemma NatToStringInjective(m: nat, n: nat)
    ensures NatToString(m) == NatToString(n) <==> m == n
  {
    if NatToString(m) == NatToString(n) {
      ValueOfNatToString(m);
      ValueOfNatToString(n);
    }
  }

  lemma {:induction false} LeadingNonZeroPositive(s: string)
    requires |s| >= 1 && AllDigits(s) && s[0] != '0'
    ensures Value(s) >= 1
    decreases |s|
  {
    if |s| > 1 {
      LeadingNonZeroPositive(s[..|s| - 1]);
    }
  }

  /** Every canonical numeral is what `str` writes for its own value. */
  lemma {:induction false} NatToStringOfValue(s: string)
    requires Canonical(s)
    ensures NatToString(Value(s)) == s
    decreases |s|
  {
    if |s| > 1 {
      var p := s[..|s| - 1];
      var d := DigitValue(s[|s| - 1]);
      LeadingNonZeroPositive(p);
      NatToStringOfValue(p);
      assert Value(s) == Value(p) * 10 + d;
      assert Value(s) / 10 == Value(p) && Value(s) % 10 == d;
      assert DigitChar(d) == s[|s| - 1];
      assert s == p + [s[|s| - 1]];
    } else {
      assert s == [s[0]];
      assert DigitChar(DigitValue(s[0])) == s[0];
    }
  }
}
