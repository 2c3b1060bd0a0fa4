/**
 * Decimal integers as text: `str(n)` for a non-negative `n`, and `int(s)`
 * restricted to strings of ASCII decimal digits.
 */
module Decimal {
  import opened Wrappers
  import Radix

  predicate IsDigit(c: char) { '0' <= c <= '9' }

  predicate AllDigits(s: string) { forall i :: 0 <= i < |s| ==> IsDigit(s[i]) }

  function DigitValue(c: char): (d: nat)
    requires IsDigit(c)
    ensures d < 10
  {
    (c as int) - ('0' as int)
  }

  function DigitChar(d: nat): (c: char)
    requires d < 10
    ensures IsDigit(c) && DigitValue(c) == d
  {
    ('0' as int + d) as char
  }

  function Values(s: string): (ds: seq<nat>)
    requires AllDigits(s)
    ensures |ds| == |s| && forall i :: 0 <= i < |s| ==> ds[i] == DigitValue(s[i])
  {
    seq(|s|, i requires 0 <= i < |s| => DigitValue(s[i]))
  }

  function Chars(ds: seq<nat>): (s: string)
    requires forall i :: 0 <= i < |ds| ==> ds[i] < 10
    ensures |s| == |ds| && AllDigits(s) && Values(s) == ds
  {
    var s := seq(|ds|, i requires 0 <= i < |ds| => DigitChar(ds[i]));
    assert Values(s) == ds;
    s
  }

  /**
   * `int(s)`: the integer an ASCII digit string denotes; None where Python's
   * `int` raises. Signs, surrounding blanks, `_` separators and non-ASCII
   * digits, which Python also accepts, are not modelled.
   */
  function ParseNat(s: string): (r: Option<nat>)
    ensures r.Some? <==> |s| >= 1 && AllDigits(s)
  {
    if |s| >= 1 && AllDigits(s) then Some(Radix.FromDigits(Values(s), 10)) else None
  }

  /** `str(n)`: digits only, never empty, no leading zero except for "0" itself. */
  function Show(n: nat): (s: string)
    ensures |s| >= 1 && AllDigits(s)
    ensures s[0] == '0' ==> n == 0 && s == "0"
  {
    var ds := Radix.ToDigits(n, 10);
    var s := Chars(ds);
    assert DigitValue(s[0]) == ds[0];
    s
  }

  /** Parsing what `str` printed gives the number back. */
  lemma ParseShow(n: nat)
    ensures ParseNat(Show(n)) == Some(n)
  {
    Radix.FromToDigits(n, 10);
  }

  /** A digit string without a leading zero is exactly how its value prints. */
  lemma ShowParse(s: string)
    requires ParseNat(s).Some?
    requires s[0] == '0' ==> |s| == 1
    ensures Show(ParseNat(s).value) == s
  {
    var ds := Values(s);
    assert Radix.Canonical(ds, 10);
    assert ParseNat(s).value == Radix.FromDigits(ds, 10);
    Radix.ToFromDigits(ds, 10);
    var t := Chars(ds);
    assert Show(ParseNat(s).value) == t;
    forall i | 0 <= i < |s|
      ensures t[i] == s[i]
    {
      assert DigitValue(t[i]) == ds[i] == DigitValue(s[i]);
    }
  }
}
