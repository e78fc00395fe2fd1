/**
  Decimal notation of natural numbers: the rendering Python's `str(int)` gives
  and the parse `int(str)` performs on a string of plain decimal digits.
*/
module Decimal {
  import opened Wrappers

  predicate IsDigit(c: char) {
    '0' <= c <= '9'
  }

  function DigitValue(c: char): (d: nat)
    requires IsDigit(c)
    ensures d < 10
  {
    c as int - '0' as int
  }

  function DigitChar(d: nat): (c: char)
    requires d < 10
    ensures IsDigit(c) && DigitValue(c) == d
  {
    ('0' as int + d) as char
  }

  predicate AllDigits(s: string) {
    forall i :: 0 <= i < |s| ==> IsDigit(s[i])
  }

  /** The value of a digit string, most significant digit first. */
  function DigitsValue(s: string): nat
    requires AllDigits(s)
    decreases |s|
  {
    if s == [] then 0 else DigitsValue(s[..|s| - 1]) * 10 + DigitValue(s[|s| - 1])
  }

  /** No superfluous leading zero. */
  predicate Canonical(s: string) {
    s != [] && (s[0] == '0' ==> |s| == 1)
  }

  /** `int(s)` on a string of decimal digits; anything else fails. */
  function ParseNat(s: string): (r: Option<nat>)
    ensures r.Some? <==> s != [] && AllDigits(s)
    ensures r.Some? && Canonical(s) ==> NatToString(r.value) == s
    ensures r.Some? ==> r.value == DigitsValue(s)
  {
    if s != [] && AllDigits(s) then
      var n := DigitsValue(s);
      assert Canonical(s) ==> NatToString(n) == s by {
        if Canonical(s) {
          RenderParsed(s);
        }
      }
      Some(n)
    else
      None
  }

  /** `str(n)` for a natural number n. */
  function NatToString(n: nat): (s: string)
    ensures AllDigits(s) && Canonical(s)
    ensures DigitsValue(s) == n
    decreases n
  {
    if n < 10 then [DigitChar(n)]
    else
      var prefix := NatToString(n / 10);
      var s := prefix + [DigitChar(n % 10)];
      assert s[..|s| - 1] == prefix;
      s
  }

  /** `str(n)` for any integer n. */
  function IntToString(n: int): (s: string)
    ensures n >= 0 ==> AllDigits(s) && Canonical(s) && DigitsValue(s) == n
    ensures n < 0 ==>
      |s| >= 2 && s[0] == '-' && AllDigits(s[1..]) && Canonical(s[1..]) && DigitsValue(s[1..]) == -n
  {
    if n < 0 then
      var digits := NatToString(-n);
      assert ("-" + digits)[1..] == digits;
      "-" + digits
    else
      NatToString(n)
  }

  /** Rendering then parsing gives the number back. */
  lemma {:induction false} ParseRendered(n: nat)
    ensures ParseNat(NatToString(n)) == Some(n)
  {
  }

  /** NatToString is injective. */
  lemma {:induction false} RenderInjective(m: nat, n: nat)
    requires NatToString(m) == NatToString(n)
    ensures m == n
  {
    ParseRendered(m);
    ParseRendered(n);
  }

  /** IntToString is injective: distinct codes get distinct label prefixes. */
  lemma {:induction false} IntRenderInjective(m: int, n: int)
    requires IntToString(m) == IntToString(n)
    ensures m == n
  {
    var s := IntToString(m);
    assert (s[0] == '-') == (m < 0);
    assert (s[0] == '-') == (n < 0);
    if m >= 0 {
      RenderInjective(m, n);
    } else {
      assert s[1..] == NatToString(-m) by {
        RenderParsed(s[1..]);
      }
      assert s[1..] == NatToString(-n) by {
        RenderParsed(s[1..]);
      }
      RenderInjective(-m, -n);
    }
  }

  lemma {:induction false} LeadingNonZero(s: string)
    requires AllDigits(s) && s != [] && s[0] != '0'
    ensures DigitsValue(s) >= 1
    decreases |s|
  {
    if |s| > 1 {
      LeadingNonZero(s[..|s| - 1]);
    }
  }

  /** Parsing a canonical digit string then rendering gives the string back. */
  lemma {:induction false} RenderParsed(s: string)
    requires AllDigits(s) && Canonical(s)
    ensures NatToString(DigitsValue(s)) == s
    decreases |s|
  {
    var n := DigitsValue(s);
    if |s| == 1 {
      assert s[..|s| - 1] == [];
      assert DigitsValue(s[..|s| - 1]) == 0;
      assert DigitChar(n) == s[0];
    } else {
      var prefix := s[..|s| - 1];
      assert prefix[0] == s[0];
      LeadingNonZero(prefix);
      RenderParsed(prefix);
      assert n / 10 == DigitsValue(prefix) && n % 10 == DigitValue(s[|s| - 1]);
      assert DigitChar(n % 10) == s[|s| - 1];
      assert s == prefix + [s[|s| - 1]];
    }
  }

  /** The rendering of n >= 10 is the rendering of n / 10 followed by the last digit. */
  lemma {:induction false} RenderDropLast(n: nat)
    requires n >= 10
    ensures |NatToString(n)| >= 2
    ensures NatToString(n)[..|NatToString(n)| - 1] == NatToString(n / 10)
  {
    var s := NatToString(n);
    assert |NatToString(n / 10)| >= 1;
    assert s == NatToString(n / 10) + [DigitChar(n % 10)];
  }

  /** A number has at most two decimal digits exactly when it is below 100. */
  lemma {:induction false} AtMostTwoDigits(n: nat)
    ensures |NatToString(n)| <= 2 <==> n < 100
  {
    if n >= 10 {
      RenderDropLast(n);
      if n >= 100 {
        RenderDropLast(n / 10);
      }
    }
  }
}
