/**
 * Decimal text of Java `int` values: `Integer.parseInt(s)` as the lookup
 * handler applies it to the `limit` parameter, and the `%d` rendering of an
 * int that a filled-in log template would show.
 */
module Decimal {
  import opened Wrappers

  const IntMin: int := -0x8000_0000
  const IntMax: int := 0x7FFF_FFFF

  predicate IsDigit(c: char)
  {
    '0' <= c <= '9'
  }

  predicate AllDigits(s: string)
  {
    forall i :: 0 <= i < |s| ==> IsDigit(s[i])
  }

  function DigitChar(d: nat): (c: char)
    requires d < 10
    ensures IsDigit(c)
  {
    ('0' as int + d) as char
  }

  /** The value of a run of decimal digits, most significant first. */
  function DigitsValue(ds: string): nat
    requires AllDigits(ds)
    decreases |ds|
  {
    if ds == [] then 0
    else DigitsValue(ds[..|ds| - 1]) * 10 + (ds[|ds| - 1] as int - '0' as int)
  }

  /** The text after an optional leading `+` or `-`. */
  function Magnitude(s: string): string
  {
    s[if |s| > 0 && (s[0] == '-' || s[0] == '+') then 1 else 0..]
  }

  /** The value a sign and a run of digits denote, before any range check. */
  function SignedValue(s: string): int
    requires AllDigits(Magnitude(s))
  {
    if |s| > 0 && s[0] == '-' then 0 - (DigitsValue(Magnitude(s)) as int) else DigitsValue(Magnitude(s))
  }

  /**
   * `Integer.parseInt(s)` in radix 10: an optional `+` or `-`, then at least
   * one digit, and a value inside the 32-bit range; `None` where it throws
   * `NumberFormatException`. Leading zeros and a leading `+` are accepted.
   */
  function ParseInt(s: string): (r: Option<int>)
    ensures r.Some? ==> IntMin <= r.value <= IntMax
    ensures r.Some? <==> Magnitude(s) != [] && AllDigits(Magnitude(s)) && IntMin <= SignedValue(s) <= IntMax
    ensures r.Some? ==> r.value == SignedValue(s)
  {
    var ds := Magnitude(s);
    if ds == [] || !AllDigits(ds) then None
    else
      var v: int := if s[0] == '-' then 0 - (DigitsValue(ds) as int) else DigitsValue(ds);
      if IntMin <= v <= IntMax then Some(v) else None
  }

  /** The shortest decimal text of a natural number. */
  function NatToString(n: nat): (s: string)
    decreases n
  {
    if n < 10 then [DigitChar(n)] else NatToString(n / 10) + [DigitChar(n % 10)]
  }

  /** `String.valueOf(n)`, the text `%d` prints. */
  function IntToString(n: int): (s: string)
  {
    if n < 0 then "-" + NatToString(-n) else NatToString(n)
  }

  lemma {:induction false} NatToStringIsDigits(n: nat)
    ensures |NatToString(n)| > 0
    ensures AllDigits(NatToString(n))
    ensures DigitsValue(NatToString(n)) == n
  {
    var s := NatToString(n);
    if n >= 10 {
      NatToStringIsDigits(n / 10);
      var prefix := NatToString(n / 10);
      assert s == prefix + [DigitChar(n % 10)];
      assert s[..|s| - 1] == prefix;
    }
  }

  /** Every int's decimal text ends in a digit. */
  lemma IntToStringEndsInDigit(n: int)
    ensures |IntToString(n)| > 0 && IsDigit(IntToString(n)[|IntToString(n)| - 1])
  {
    var m: nat := if n < 0 then -n else n;
    NatToStringIsDigits(m);
    var t := NatToString(m);
    assert IntToString(n)[|IntToString(n)| - 1] == t[|t| - 1];
  }

  /** A leading zero does not change the value of a run of digits. */
  lemma {:induction false} LeadingZeroKeepsValue(ds: string)
    requires AllDigits(ds)
    ensures AllDigits("0" + ds) && DigitsValue("0" + ds) == DigitsValue(ds)
    decreases |ds|
  {
    var z := "0" + ds;
    if ds == [] {
      assert z[..|z| - 1] == [];
    } else {
      LeadingZeroKeepsValue(ds[..|ds| - 1]);
      assert z[..|z| - 1] == "0" + ds[..|ds| - 1];
      assert z[|z| - 1] == ds[|ds| - 1];
    }
  }

  /** `Integer.parseInt` also reads a non-negative int written with a leading `+` or a leading zero. */
  lemma ParseIntLenientForms(n: nat)
    requires n <= IntMax
    ensures ParseInt("+" + IntToString(n)) == Some(n)
    ensures ParseInt("0" + IntToString(n)) == Some(n)
  {
    var t := NatToString(n);
    NatToStringIsDigits(n);
    assert Magnitude("+" + t) == t;
    LeadingZeroKeepsValue(t);
    assert Magnitude("0" + t) == "0" + t;
  }

  /** `Integer.parseInt` reads back every 32-bit int from its decimal text. */
  lemma {:induction false} ParseIntRoundTrip(n: int)
    requires IntMin <= n <= IntMax
    ensures ParseInt(IntToString(n)) == Some(n)
  {
    var s := IntToString(n);
    if n < 0 {
      NatToStringIsDigits(-n);
      assert s[0] == '-' && s[1..] == NatToString(-n);
    } else {
      NatToStringIsDigits(n);
      assert s[0] != '-' && s[0] != '+';
      assert s[0..] == s;
    }
  }
}
