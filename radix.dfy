/**
 * Positional notation, most significant digit first. Shared by the decimal
 * rendering of integers (`str(n)`, `int(s)`) and by `base64_encode`.
 */
module Radix {

  /** Digits of `n` in base `base`: never empty, no leading zero unless `n` is 0. */
  function ToDigits(n: nat, base: nat): (ds: seq<nat>)
    requires base >= 2
    ensures |ds| >= 1
    ensures forall i :: 0 <= i < |ds| ==> ds[i] < base
    ensures ds[0] != 0 || n == 0
    ensures n < base <==> |ds| == 1
    decreases n
  {
    DivFacts(n, base);
    if n < base then [n] else ToDigits(n / base, base) + [n % base]
  }

  /** The value a digit string denotes in base `base`. */
  function FromDigits(ds: seq<nat>, base: nat): nat
  {
    if ds == [] then 0 else FromDigits(ds[..|ds| - 1], base) * base + ds[|ds| - 1]
  }

  /** A canonical digit string: non-empty, every digit below the base, no leading zero. */
  predicate Canonical(ds: seq<nat>, base: nat)
  {
    && |ds| >= 1
    && (forall i :: 0 <= i < |ds| ==> ds[i] < base)
    && (ds[0] == 0 ==> |ds| == 1)
  }

  /** Reading back the digits of `n` gives `n`. */
  lemma {:induction false} FromToDigits(n: nat, base: nat)
    requires base >= 2
    ensures FromDigits(ToDigits(n, base), base) == n
    decreases n
  {
    DivFacts(n, base);
    if n >= base {
      var ds := ToDigits(n, base);
      FromToDigits(n / base, base);
      assert ds[..|ds| - 1] == ToDigits(n / base, base);
    }
  }

  /** Every canonical digit string is the digit string of the number it denotes. */
  lemma {:induction false} ToFromDigits(ds: seq<nat>, base: nat)
    requires base >= 2
    requires Canonical(ds, base)
    ensures ToDigits(FromDigits(ds, base), base) == ds
    decreases |ds|
  {
    if |ds| > 1 {
      var init, last := ds[..|ds| - 1], ds[|ds| - 1];
      assert Canonical(init, base);
      ToFromDigits(init, base);
      LeadingDigitBound(init, base);
      var n, q := FromDigits(ds, base), FromDigits(init, base);
      DivModUnique(n, base, q, last);
      DivFacts(n, base);
      assert ds == init + [last];
    }
  }

  /** The value of a digit string is at least its leading digit. */
  lemma {:induction false} LeadingDigitBound(ds: seq<nat>, base: nat)
    requires base >= 2 && |ds| >= 1
    ensures FromDigits(ds, base) >= ds[0]
    decreases |ds|
  {
    if |ds| > 1 {
      LeadingDigitBound(ds[..|ds| - 1], base);
      MulMonotone(FromDigits(ds[..|ds| - 1], base), base);
    }
  }

  // Arithmetic facts kept out of the lemmas above so that each proof stays linear.

  lemma DivFacts(n: nat, b: nat)
    requires b >= 2
    ensures n == (n / b) * b + n % b && n % b < b
    ensures n >= 1 ==> n / b < n
    ensures n >= b <==> n / b >= 1
  {
    var q, r := n / b, n % b;
    assert n == q * b + r && r < b;
    MulMonotone(q, b);
    if q >= 1 {
      MulAtLeastTwice(q, b);
    }
  }

  lemma MulMonotone(q: nat, b: nat)
    requires b >= 1
    ensures q * b >= q
  {
    assert q * b == q * (b - 1) + q;
  }

  lemma MulAtLeastTwice(q: nat, b: nat)
    requires b >= 2 && q >= 1
    ensures q * b >= 2 * q && q * b >= b
  {
    assert q * b == q * (b - 2) + 2 * q;
    assert q * b == (q - 1) * b + b;
  }

  lemma MulZero(k: int, b: int)
    requires b >= 1 && -b < k * b < b
    ensures k == 0
  {
  }

  /** Quotient and remainder are the unique pair with `n == q * b + r` and `0 <= r < b`. */
  lemma DivModUnique(n: int, b: nat, q: int, r: nat)
    requires b >= 1 && r < b && n == q * b + r
    ensures n / b == q && n % b == r
  {
    var q', r' := n / b, n % b;
    assert (q' - q) * b == r - r';
    MulZero(q' - q, b);
  }
}
