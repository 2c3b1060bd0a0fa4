/**
 * Colours as 24-bit integers (`color_as_int`, `color_from_int`) and the
 * `;`-separated index/colour lists of the palette escape (`parse_color_set`).
 */
module Colors {
  import opened Wrappers
  import Strings
  import Decimal
  import Radix

  type Byte = x: int | 0 <= x < 0x100

  /** `rgb.Color`: a named triple of 8-bit components. */
  datatype Color = Color(red: Byte, green: Byte, blue: Byte)

  /**
   * `color_as_int`: `r << 16 | g << 8 | b`. The three shifted components
   * occupy disjoint bits, so the OR is their sum.
   */
  function ColorAsInt(c: Color): (v: nat)
    ensures v < 0x100_0000
  {
    c.red * 0x1_0000 + c.green * 0x100 + c.blue
  }

  /**
   * `color_from_int`: `(v >> 16) & 0xFF`, `(v >> 8) & 0xFF`, `v & 0xFF`. Python's
   * `>>` floors and `& 0xFF` keeps the low byte of the two's complement, which
   * for every integer, negative ones included, is Dafny's `/` and `%` by a
   * positive constant. Total: every integer yields three bytes.
   */
  function ColorFromInt(v: int): Color
  {
    Color((v / 0x1_0000) % 0x100, (v / 0x100) % 0x100, v % 0x100)
  }

  /** Packing and unpacking a colour gives it back. */
  lemma ColorRoundTrip(c: Color)
    ensures ColorFromInt(ColorAsInt(c)) == c
  {
    var v := ColorAsInt(c);
    assert v / 0x1_0000 == c.red;
    assert v / 0x100 == c.red * 0x100 + c.green;
  }

  /** Unpacking keeps exactly the low 24 bits: packing the result gives `v mod 2^24`. */
  lemma ColorFromIntLow24(v: int)
    ensures ColorAsInt(ColorFromInt(v)) == v % 0x100_0000
  {
    LowBytes(v);
    Decompose(v % 0x100_0000);
  }

  /** The bytes `color_from_int` extracts depend only on the low 24 bits. */
  lemma LowBytes(v: int)
    ensures (v / 0x1_0000) % 0x100 == ((v % 0x100_0000) / 0x1_0000) % 0x100
    ensures (v / 0x100) % 0x100 == ((v % 0x100_0000) / 0x100) % 0x100
    ensures v % 0x100 == (v % 0x100_0000) % 0x100
  {
    var q, low := v / 0x100_0000, v % 0x100_0000;
    assert v == q * 0x100_0000 + low;
    var h, m := low / 0x1_0000, low / 0x100;
    Radix.DivModUnique(v, 0x1_0000, q * 0x100 + h, low % 0x1_0000);
    Radix.DivModUnique(q * 0x100 + h, 0x100, q + h / 0x100, h % 0x100);
    Radix.DivModUnique(v, 0x100, q * 0x1_0000 + m, low % 0x100);
    Radix.DivModUnique(q * 0x1_0000 + m, 0x100, q * 0x100 + m / 0x100, m % 0x100);
  }

  /** A 24-bit value is the sum of its three shifted bytes. */
  lemma Decompose(low: int)
    requires 0 <= low < 0x100_0000
    ensures ((low / 0x1_0000) % 0x100) * 0x1_0000 + ((low / 0x100) % 0x100) * 0x100 + low % 0x100 == low
  {
    var m := low / 0x100;
    assert m == (low / 0x1_0000) * 0x100 + m % 0x100;
    assert low == m * 0x100 + low % 0x100;
  }

  /** One entry of a colour set: the palette index and, unless queried with `?`, the colour. */
  datatype ColorSetEntry = ColorSetEntry(index: Byte, color: Option<nat>)

  /**
   * What one `(index, spec)` pair yields, if anything: nothing when the index
   * is not a digit string, lies above 255, or names a colour `toColor` cannot
   * parse (the source's `except Exception: continue`).
   */
  function PairEntry(c: string, spec: string, toColor: string -> Option<Color>): Option<ColorSetEntry>
  {
    match Decimal.ParseNat(c)
    case None => None
    case Some(i) =>
      if i > 255 then None
      else if spec == "?" then Some(ColorSetEntry(i, None))
      else
        match toColor(spec)
        case None => None
        case Some(color) => Some(ColorSetEntry(i, Some(ColorAsInt(color))))
  }

  function OptionToSeq<T>(o: Option<T>): seq<T>
  {
    if o.Some? then [o.value] else []
  }

  /** What a list of parts yields, pair by pair, in order (a trailing odd part yields nothing). */
  function PairsEntries(parts: seq<string>, toColor: string -> Option<Color>): seq<ColorSetEntry>
  {
    if |parts| < 2 then []
    else OptionToSeq(PairEntry(parts[0], parts[1], toColor)) + PairsEntries(parts[2..], toColor)
  }

  /** Everything `parse_color_set(raw)` yields, as a list. */
  function ColorSet(raw: string, toColor: string -> Option<Color>): seq<ColorSetEntry>
  {
    var parts := Strings.Split(raw, ';');
    if |parts| % 2 != 0 then [] else PairsEntries(parts, toColor)
  }

  /**
   * `parse_color_set`: the generator, run to completion. An odd number of
   * `;`-separated parts yields nothing; otherwise every pair is tried in turn
   * and a pair that fails is skipped.
   */
  method ParseColorSet(raw: string, toColor: string -> Option<Color>) returns (entries: seq<ColorSetEntry>)
    ensures |Strings.Split(raw, ';')| % 2 != 0 ==> entries == []
    ensures entries == ColorSet(raw, toColor)
  {
    var parts := Strings.Split(raw, ';');
    if |parts| % 2 != 0 {
      return [];
    }
    entries := YieldPairs(parts, toColor);
  }

  /**
   * The loop over the two-element slices `parts[i:i + 2]`, `i` stepping by 2.
   * The caller has checked that the number of parts is even, so every slice
   * is a full pair; on an odd count the loop would stop before the last part.
   */
  method YieldPairs(parts: seq<string>, toColor: string -> Option<Color>) returns (entries: seq<ColorSetEntry>)
    ensures entries == PairsEntries(parts, toColor)
  {
    entries := [];
    var i := 0;
    while i + 1 < |parts|
      invariant 0 <= i <= |parts|
      invariant entries + PairsEntries(parts[i..], toColor) == PairsEntries(parts, toColor)
    {
      var yielded := TryPair(parts[i], parts[i + 1], toColor);
      PairsStep(parts, i, toColor);
      Strings.AppendAssoc(entries, yielded, PairsEntries(parts[i + 2..], toColor));
      entries := entries + yielded;
      i := i + 2;
    }
  }

  /** The pair at `i` comes first in what the parts from `i` on yield. */
  lemma PairsStep(parts: seq<string>, i: nat, toColor: string -> Option<Color>)
    requires i + 2 <= |parts|
    ensures PairsEntries(parts[i..], toColor)
         == OptionToSeq(PairEntry(parts[i], parts[i + 1], toColor)) + PairsEntries(parts[i + 2..], toColor)
  {
    assert parts[i..][2..] == parts[i + 2..];
  }

  /**
   * The body of the loop for one `(c, spec)` pair, step by step: what it
   * yields, nothing if `int(c)` fails, the index is above 255 or `to_color`
   * cannot read `spec`. The index of a digit string is never negative, so the
   * source's `c < 0` test has no counterpart here.
   */
  method TryPair(c: string, spec: string, toColor: string -> Option<Color>) returns (yielded: seq<ColorSetEntry>)
    ensures yielded == OptionToSeq(PairEntry(c, spec, toColor))
    ensures |yielded| <= 1
  {
    yielded := [];
    var index := Decimal.ParseNat(c);
    if index.None? || index.value > 255 {
      return;
    }
    if spec == "?" {
      yielded := [ColorSetEntry(index.value, None)];
    } else {
      var color := toColor(spec);
      if color.Some? {
        yielded := [ColorSetEntry(index.value, Some(ColorAsInt(color.value)))];
      }
    }
  }

  /**
   * Every entry comes from some pair of the input, and every pair that can be
   * read yields its entry: the result is exactly what the good pairs yield.
   */
  lemma {:induction false} PairsEntriesMembership(parts: seq<string>, toColor: string -> Option<Color>, e: ColorSetEntry)
    ensures e in PairsEntries(parts, toColor) <==>
      exists k :: 0 <= k && 2 * k + 1 < |parts| && PairEntry(parts[2 * k], parts[2 * k + 1], toColor) == Some(e)
  {
    if |parts| >= 2 {
      var rest := parts[2..];
      PairsEntriesMembership(rest, toColor, e);
      assert parts == [parts[0], parts[1]] + rest;
      PairsCons(parts[0], parts[1], rest, toColor);
      if e in PairsEntries(parts, toColor) {
        if e in PairsEntries(rest, toColor) {
          var k :| 0 <= k && 2 * k + 1 < |rest| && PairEntry(rest[2 * k], rest[2 * k + 1], toColor) == Some(e);
          assert parts[2 * (k + 1)] == rest[2 * k] && parts[2 * (k + 1) + 1] == rest[2 * k + 1];
        } else {
          assert PairEntry(parts[2 * 0], parts[2 * 0 + 1], toColor) == Some(e);
        }
      } else {
        forall k | 0 <= k && 2 * k + 1 < |parts|
          ensures PairEntry(parts[2 * k], parts[2 * k + 1], toColor) != Some(e)
        {
          if k > 0 {
            assert parts[2 * k] == rest[2 * (k - 1)] && parts[2 * k + 1] == rest[2 * (k - 1) + 1];
          }
        }
      }
    }
  }

  /**
   * Membership in the parsed colour set: an odd number of parts yields
   * nothing; otherwise an entry is yielded exactly when some pair yields it.
   */
  lemma ColorSetMembership(raw: string, toColor: string -> Option<Color>, e: ColorSetEntry)
    ensures var parts := Strings.Split(raw, ';');
      e in ColorSet(raw, toColor) <==>
        && |parts| % 2 == 0
        && exists k :: 0 <= k && 2 * k + 1 < |parts| && PairEntry(parts[2 * k], parts[2 * k + 1], toColor) == Some(e)
  {
    var parts := Strings.Split(raw, ';');
    if |parts| % 2 == 0 {
      PairsEntriesMembership(parts, toColor, e);
    }
  }

  /** What one requested entry looks like on the wire: its index, then `?` or the colour's name. */
  function RequestParts(index: Byte, color: Option<Color>, name: Color -> string): seq<string>
  {
    [Decimal.Show(index), if color.None? then "?" else name(color.value)]
  }

  /** The parts of a list of requests, two per request. */
  function RequestsParts(requests: seq<(Byte, Option<Color>)>, name: Color -> string): (parts: seq<string>)
    ensures |parts| == 2 * |requests| && |parts| % 2 == 0
  {
    if requests == [] then []
    else RequestParts(requests[0].0, requests[0].1, name) + RequestsParts(requests[1..], name)
  }

  /** The entry a request must come back as. */
  function RequestEntryOf(r: (Byte, Option<Color>)): ColorSetEntry
  {
    ColorSetEntry(r.0, if r.1.None? then None else Some(ColorAsInt(r.1.value)))
  }

  /** What parsing a request list must give back: one entry per request, in order. */
  function Expected(requests: seq<(Byte, Option<Color>)>): (entries: seq<ColorSetEntry>)
  {
    seq(|requests|, i requires 0 <= i < |requests| => RequestEntryOf(requests[i]))
  }

  lemma {:induction false} RequestsPartsEntries(requests: seq<(Byte, Option<Color>)>, name: Color -> string, toColor: string -> Option<Color>)
    requires ReadsBack(name, toColor)
    ensures PairsEntries(RequestsParts(requests, name), toColor) == Expected(requests)
  {
    if requests != [] {
      var first := RequestParts(requests[0].0, requests[0].1, name);
      var later := RequestsParts(requests[1..], name);
      RequestsPartsEntries(requests[1..], name, toColor);
      assert RequestsParts(requests, name) == [first[0], first[1]] + later;
      PairsCons(first[0], first[1], later, toColor);
      RequestEntry(requests[0].0, requests[0].1, name, toColor);
      ExpectedCons(requests);
    }
  }

  lemma PairsCons(c: string, spec: string, rest: seq<string>, toColor: string -> Option<Color>)
    ensures PairsEntries([c, spec] + rest, toColor) == OptionToSeq(PairEntry(c, spec, toColor)) + PairsEntries(rest, toColor)
  {
    assert ([c, spec] + rest)[2..] == rest;
  }

  lemma ExpectedCons(requests: seq<(Byte, Option<Color>)>)
    requires requests != []
    ensures Expected(requests) == [RequestEntryOf(requests[0])] + Expected(requests[1..])
  {
  }

  /** `name` writes every colour in a notation `toColor` reads back, never as `?`. */
  ghost predicate ReadsBack(name: Color -> string, toColor: string -> Option<Color>)
  {
    forall c :: toColor(name(c)) == Some(c) && name(c) != "?"
  }

  /** The two parts of one request yield that request's entry. */
  lemma RequestEntry(index: Byte, color: Option<Color>, name: Color -> string, toColor: string -> Option<Color>)
    requires ReadsBack(name, toColor)
    ensures var p := RequestParts(index, color, name);
      PairEntry(p[0], p[1], toColor) == Some(RequestEntryOf((index, color)))
  {
    Decimal.ParseShow(index);
    if color.Some? {
      assert toColor(name(color.value)) == Some(color.value);
    }
  }

  /**
   * Round trip: a list of palette requests, each an index with `?` or with a
   * colour written in any notation `toColor` reads back, joined with `;`,
   * parses to one entry per request, in order, carrying the packed colour.
   */
  lemma ColorSetRoundTrip(requests: seq<(Byte, Option<Color>)>, name: Color -> string, toColor: string -> Option<Color>)
    requires ReadsBack(name, toColor) && NoSeparator(name)
    requires |requests| >= 1
    ensures ColorSet(Strings.Join(RequestsParts(requests, name), ';'), toColor) == Expected(requests)
  {
    var parts := RequestsParts(requests, name);
    NoSeparatorInParts(requests, name);
    Strings.SplitJoin(parts, ';');
    assert Strings.Split(Strings.Join(parts, ';'), ';') == parts;
    RequestsPartsEntries(requests, name, toColor);
    assert ColorSet(Strings.Join(parts, ';'), toColor) == PairsEntries(parts, toColor);
  }

  /** `name` never writes a `;`, so a written colour stays one part. */
  ghost predicate NoSeparator(name: Color -> string)
  {
    forall c :: ';' !in name(c)
  }

  lemma {:induction false} NoSeparatorInParts(requests: seq<(Byte, Option<Color>)>, name: Color -> string)
    requires NoSeparator(name)
    ensures Strings.SeparatorFree(RequestsParts(requests, name), ';')
  {
    if requests != [] {
      var r := requests[0];
      NoSeparatorInParts(requests[1..], name);
      var s := Decimal.Show(r.0);
      assert ';' !in s by {
        assert Decimal.AllDigits(s);
      }
      var first := RequestParts(r.0, r.1, name);
      assert ';' !in first[1] by {
        if r.1.Some? {
          assert ';' !in name(r.1.value);
        }
      }
      assert RequestsParts(requests, name) == first + RequestsParts(requests[1..], name);
    }
  }
}
