/**
 * `base64_encode`: a non-negative integer written in radix 64 over the
 * alphabet `A-Z a-z 0-9 + /`, most significant digit first. This is not the
 * RFC 4648 byte encoding: there is no padding and no grouping of bytes.
 */
module Base64 {
  import Radix

  const AsciiUppercase: string := "ABCDEFGHIJKLMNOPQRSTUVWXYZ"
  const AsciiLowercase: string := "abcdefghijklmnopqrstuvwxyz"
  const Digits10: string := "0123456789"

  /** The default `chars` of `base64_encode`. */
  const Alphabet: string := AsciiUppercase + AsciiLowercase + Digits10 + "+/"

  /** The alphabet character for a digit, computed from its position. */
  function DigitChar(d: nat): char
    requires d < 64
  {
    if d < 26 then ('A' as int + d) as char
    else if d < 52 then ('a' as int + (d - 26)) as char
    else if d < 62 then ('0' as int + (d - 52)) as char
    else if d == 62 then '+'
    else '/'
  }

  predicate InAlphabet(c: char)
  {
    || 'A' <= c <= 'Z' || 'a' <= c <= 'z' || '0' <= c <= '9' || c == '+' || c == '/'
  }

  /** The digit an alphabet character stands for: the inverse of DigitChar. */
  function DigitOf(c: char): (d: nat)
    requires InAlphabet(c)
    ensures d < 64 && DigitChar(d) == c
  {
    if 'A' <= c <= 'Z' then (c as int) - ('A' as int)
    else if 'a' <= c <= 'z' then (c as int) - ('a' as int) + 26
    else if '0' <= c <= '9' then (c as int) - ('0' as int) + 52
    else if c == '+' then 62
    else 63
  }

  /** The alphabet is the table DigitChar computes. */
  lemma AlphabetTable()
    ensures |Alphabet| == 64
    ensures forall d :: 0 <= d < 64 ==> Alphabet[d] == DigitChar(d)
  {
    LettersTable();
    forall i | 0 <= i < 10
      ensures Digits10[i] == ('0' as int + i) as char
    {
      assert i == 0 || i == 1 || i == 2 || i == 3 || i == 4 || i == 5 || i == 6 || i == 7 || i == 8 || i == 9;
    }
  }

  lemma LettersTable()
    ensures |AsciiUppercase| == 26 && |AsciiLowercase| == 26
    ensures forall i :: 0 <= i < 26 ==> AsciiUppercase[i] == ('A' as int + i) as char
    ensures forall i :: 0 <= i < 26 ==> AsciiLowercase[i] == ('a' as int + i) as char
  {
    forall i | 0 <= i < 26
      ensures AsciiUppercase[i] == ('A' as int + i) as char
      ensures AsciiLowercase[i] == ('a' as int + i) as char
    {
      assert i == 0 || i == 1 || i == 2 || i == 3 || i == 4 || i == 5 || i == 6 || i == 7 || i == 8 || i == 9 || i == 10 || i == 11 || i == 12 || i == 13 || i == 14 || i == 15 || i == 16 || i == 17 || i == 18 || i == 19 || i == 20 || i == 21 || i == 22 || i == 23 || i == 24 || i == 25;
    }
  }

  lemma DigitCharInAlphabet(d: nat)
    requires d < 64
    ensures InAlphabet(DigitChar(d)) && DigitOf(DigitChar(d)) == d
  {
  }

  /** Digits written with the alphabet, first to last. */
  function Render(ds: seq<nat>): (s: string)
    requires forall i :: 0 <= i < |ds| ==> ds[i] < 64
    ensures |s| == |ds|
  {
    if ds == [] then [] else [DigitChar(ds[0])] + Render(ds[1..])
  }

  /** Each character of a rendering is the character of the digit in that position. */
  lemma {:induction false} RenderAt(ds: seq<nat>, i: nat)
    requires forall j :: 0 <= j < |ds| ==> ds[j] < 64
    requires i < |ds|
    ensures Render(ds)[i] == DigitChar(ds[i])
  {
    if i > 0 {
      RenderAt(ds[1..], i - 1);
    }
  }

  /** The digits a string of alphabet characters stands for. */
  function Digits(s: string): (ds: seq<nat>)
    requires forall i :: 0 <= i < |s| ==> InAlphabet(s[i])
    ensures |ds| == |s| && forall i :: 0 <= i < |s| ==> ds[i] == DigitOf(s[i])
  {
    seq(|s|, i requires 0 <= i < |s| => DigitOf(s[i]))
  }

  /** What `base64_encode(n)` returns. */
  function Encoding(n: nat): string
  {
    Render(Radix.ToDigits(n, 64))
  }

  /**
   * The encoding is never empty, uses only the alphabet, and has no leading
   * `A` (the zero digit) except for 0, which encodes as `A`.
   */
  lemma EncodingShape(n: nat)
    ensures var s := Encoding(n);
      && |s| >= 1
      && (forall i :: 0 <= i < |s| ==> InAlphabet(s[i]))
      && (n == 0 <==> s == "A")
      && (n > 0 ==> s[0] != 'A')
  {
    var ds := Radix.ToDigits(n, 64);
    forall i | 0 <= i < |ds|
      ensures InAlphabet(Encoding(n)[i])
    {
      RenderAt(ds, i);
      DigitCharInAlphabet(ds[i]);
    }
    RenderAt(ds, 0);
    DigitCharInAlphabet(ds[0]);
  }

  /** Decoding in radix 64 gives the encoded integer back. */
  lemma DecodeEncoding(n: nat)
    ensures EncodedText(Encoding(n)) && Decode(Encoding(n)) == n
  {
    EncodingShape(n);
    var ds := Radix.ToDigits(n, 64);
    forall i | 0 <= i < |ds|
      ensures Digits(Encoding(n))[i] == ds[i]
    {
      RenderAt(ds, i);
      DigitCharInAlphabet(ds[i]);
    }
    assert Digits(Encoding(n)) == ds;
    Radix.FromToDigits(n, 64);
  }

  /** Every alphabet string without a leading `A` (or just `A`) is the encoding of what it decodes to. */
  lemma EncodingOfDecode(s: string)
    requires EncodedText(s)
    ensures Encoding(Decode(s)) == s
  {
    var ds := Digits(s);
    assert ds[0] == 0 ==> s[0] == 'A';
    assert Radix.Canonical(ds, 64);
    Radix.ToFromDigits(ds, 64);
    forall i | 0 <= i < |s|
      ensures Render(ds)[i] == s[i]
    {
      RenderAt(ds, i);
    }
  }

  /** The strings `base64_encode` can return: non-empty, over the alphabet, no leading zero digit. */
  predicate EncodedText(s: string)
  {
    && |s| >= 1
    && (forall i :: 0 <= i < |s| ==> InAlphabet(s[i]))
    && (s[0] == 'A' ==> |s| == 1)
  }

  /** Reading an encoding back, digit by digit in radix 64. */
  function Decode(s: string): nat
    requires forall i :: 0 <= i < |s| ==> InAlphabet(s[i])
  {
    Radix.FromDigits(Digits(s), 64)
  }

  /**
   * `base64_encode(integer)`: repeatedly split off `integer % 64`, prepend
   * its character and stop once the quotient is 0, so at least one digit is
   * always written.
   */
  method Base64Encode(integer: nat) returns (ans: string)
    ensures ans == Encoding(integer)
  {
    var n := integer;
    ans := "";
    ghost var digits: seq<nat> := [];
    while true
      invariant forall i :: 0 <= i < |digits| ==> digits[i] < 64
      invariant ans == Render(digits)
      invariant Radix.ToDigits(n, 64) + digits == Radix.ToDigits(integer, 64)
      invariant digits != [] ==> n > 0
      decreases n
    {
      var q, remainder := n / 64, n % 64;
      LastDigit(n, digits);
      AlphabetAt(remainder);
      RenderCons(remainder, digits);
      ans := [Alphabet[remainder]] + ans;
      digits := [remainder] + digits;
      n := q;
      if n == 0 {
        break;
      }
    }
  }

  /** Splitting off the last digit of `n` leaves the digits of `n / 64`. */
  lemma LastDigit(n: nat, digits: seq<nat>)
    ensures Radix.ToDigits(n, 64) + digits
      == (if n < 64 then [] else Radix.ToDigits(n / 64, 64)) + ([n % 64] + digits)
  {
  }

  lemma AlphabetAt(d: nat)
    requires d < 64
    ensures Alphabet[d] == DigitChar(d)
  {
    AlphabetTable();
  }

  lemma RenderCons(d: nat, ds: seq<nat>)
    requires d < 64 && forall i :: 0 <= i < |ds| ==> ds[i] < 64
    ensures Render([d] + ds) == [DigitChar(d)] + Render(ds)
  {
    assert ([d] + ds)[1..] == ds;
  }
}
