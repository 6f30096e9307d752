/** Decimal text of integers, as Python's `str` writes an `int`. */
module Decimal {
  import opened Wrappers

  predicate IsDigit(c: char)
  {
    '0' <= c <= '9'
  }

  function DigitChar(d: nat): (c: char)
    requires d < 10
    ensures IsDigit(c) && c as int - '0' as int == d
  {
    ('0' as int + d) as char
  }

  function DigitValue(c: char): (d: nat)
    requires IsDigit(c)
    ensures d < 10 && DigitChar(d) == c
  {
    c as int - '0' as int
  }

  /** The decimal digits of `n`, most significant first, without leading zeros. */
  function NatToString(n: nat): (s: string)
    ensures 1 <= |s| && forall i :: 0 <= i < |s| ==> IsDigit(s[i])
    ensures |s| > 1 ==> s[0] != '0'
    ensures s[0] == '0' <==> n == 0
    decreases n
  {
    if n < 10 then [DigitChar(n)] else NatToString(n / 10) + [DigitChar(n % 10)]
  }

  /** Python's `str(n)`: a minus sign before the digits of a negative number. */
  function IntToString(n: int): (s: string)
    ensures 1 <= |s| && (s[0] == '-' <==> n < 0)
  {
    if n < 0 then "-" + NatToString(-n) else NatToString(n)
  }

  /** Digits as `str` writes them: at least one, and no leading zero unless the number is 0. */
  predicate Canonical(t: string)
  {
    1 <= |t| && (forall i :: 0 <= i < |t| ==> IsDigit(t[i])) && (|t| > 1 ==> t[0] != '0')
  }

  function ParseNat(s: string): (n: nat)
    requires forall i :: 0 <= i < |s| ==> IsDigit(s[i])
    decreases |s|
  {
    if s == [] then 0 else 10 * ParseNat(s[..|s| - 1]) + DigitValue(s[|s| - 1])
  }

  /** Digits that do not start with 0 spell a positive number. */
  lemma {:induction false} ParseNatPositive(t: string)
    requires 1 <= |t| && (forall i :: 0 <= i < |t| ==> IsDigit(t[i])) && t[0] != '0'
    ensures ParseNat(t) >= 1
    decreases |t|
  {
    if |t| > 1 {
      ParseNatPositive(t[..|t| - 1]);
    }
  }

  /** Reads back what IntToString writes; None on text it cannot produce (no digits, a
      leading zero, "-0" or any other character). */
  function ParseInt(s: string): (r: Option<int>)
    ensures r.Some? ==> s != [] && (s[0] == '-' <==> r.value < 0)
  {
    if s == [] then None
    else if s[0] == '-' then
      if Canonical(s[1..]) && s[1] != '0' then
        ParseNatPositive(s[1..]);
        Some(0 - ParseNat(s[1..]) as int)
      else None
    else if Canonical(s) then Some(ParseNat(s) as int)
    else None
  }

  lemma {:induction false} ParseNatToString(n: nat)
    ensures ParseNat(NatToString(n)) == n
    decreases n
  {
    if n >= 10 {
      var s := NatToString(n);
      assert s[..|s| - 1] == NatToString(n / 10);
      ParseNatToString(n / 10);
    }
  }

  /** Canonical digits are the text of the number they spell. */
  lemma {:induction false} NatToStringParse(t: string)
    requires Canonical(t)
    ensures NatToString(ParseNat(t)) == t
    decreases |t|
  {
    if |t| > 1 {
      var u := t[..|t| - 1];
      assert Canonical(u) && u[0] != '0';
      ParseNatPositive(u);
      NatToStringParse(u);
      assert t == u + [t[|t| - 1]];
    }
  }

  /** Every integer's text reads back as that integer. */
  lemma {:induction false} IntToStringRoundTrip(n: int)
    ensures ParseInt(IntToString(n)) == Some(n)
  {
    var s := IntToString(n);
    if n < 0 {
      var t := NatToString(-n);
      assert s == "-" + t && s[1..] == t;
      ParseNatToString(-n);
    } else {
      assert s == NatToString(n);
      ParseNatToString(n);
    }
  }

  /** ParseInt reads exactly the texts IntToString writes: text reads back as `n` iff it
      is the text of `n`. */
  lemma {:induction false} ParseIntExactly(s: string, n: int)
    ensures ParseInt(s) == Some(n) <==> s == IntToString(n)
  {
    if s == IntToString(n) {
      IntToStringRoundTrip(n);
    }
    if ParseInt(s) == Some(n) {
      if s[0] == '-' {
        var t := s[1..];
        NatToStringParse(t);
        assert s == "-" + t;
      } else {
        NatToStringParse(s);
      }
    }
  }

  /** Different integers have different texts. */
  lemma IntToStringInjective(a: int, b: int)
    requires IntToString(a) == IntToString(b)
    ensures a == b
  {
    IntToStringRoundTrip(a);
    IntToStringRoundTrip(b);
  }
}
