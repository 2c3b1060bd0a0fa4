/**
 * `sanitize_title`: delete the control characters `[\0-\x19\x80-\x9f]`, then
 * replace every run of whitespace (Python's `\s` on `str`) by one space.
 */
module Titles {
  import Strings

  /** The class `[\0-\x19\x80-\x9f]` of the first substitution. */
  predicate IsStripped(c: char)
  {
    c as int <= 0x19 || 0x80 <= c as int <= 0x9f
  }

  /**
   * Python's `\s` on `str`: the characters `str.isspace` accepts, that is
   * TAB..CR, the separators 0x1c..0x1f, SPACE, NEL, NBSP, OGHAM SPACE MARK,
   * the spaces U+2000..U+200A, LINE and PARAGRAPH SEPARATOR, NNBSP, MMSP and
   * IDEOGRAPHIC SPACE.
   */
  predicate IsSpace(c: char)
  {
    var n := c as int;
    || 0x09 <= n <= 0x0d || 0x1c <= n <= 0x20
    || n == 0x85 || n == 0xa0 || n == 0x1680
    || 0x2000 <= n <= 0x200a || n == 0x2028 || n == 0x2029
    || n == 0x202f || n == 0x205f || n == 0x3000
  }

  /** `re.sub(r'[\0-\x19\x80-\x9f]', '', s)`. */
  function StripControls(s: string): (r: string)
    ensures forall i :: 0 <= i < |r| ==> !IsStripped(r[i])
    ensures forall c :: c in r <==> c in s && !IsStripped(c)
    ensures |r| <= |s|
  {
    if s == [] then []
    else (if IsStripped(s[0]) then [] else [s[0]]) + StripControls(s[1..])
  }

  /** The rest of `s` after its leading run of whitespace. */
  function SkipSpaces(s: string): (r: string)
    ensures |r| <= |s| && r == s[|s| - |r|..]
    ensures r == [] || !IsSpace(r[0])
    ensures forall i :: 0 <= i < |s| - |r| ==> IsSpace(s[i])
  {
    if s != [] && IsSpace(s[0]) then SkipSpaces(s[1..]) else s
  }

  /** `re.sub(r'\s+', ' ', s)`: each maximal run of whitespace becomes one space. */
  function CollapseSpaces(s: string): (r: string)
    ensures s != [] ==> |r| >= 1
    ensures s != [] && !IsSpace(s[0]) ==> r[0] == s[0]
    decreases |s|
  {
    if s == [] then []
    else if IsSpace(s[0]) then " " + CollapseSpaces(SkipSpaces(s))
    else [s[0]] + CollapseSpaces(s[1..])
  }

  /** `sanitize_title(x)`. */
  function SanitizeTitle(x: string): string
  {
    CollapseSpaces(StripControls(x))
  }

  /** Deleting is done character by character: one character is dropped exactly when it is in the class. */
  lemma StripChar(c: char)
    ensures StripControls([c]) == if IsStripped(c) then [] else [c]
  {
    assert [c][1..] == [];
  }

  /** Deleting from a concatenation deletes from each part, keeping the order of what survives. */
  lemma {:induction false} StripAppend(a: string, b: string)
    ensures StripControls(a + b) == StripControls(a) + StripControls(b)
  {
    if a != [] {
      assert (a + b)[0] == a[0];
      assert (a + b)[1..] == a[1..] + b;
      StripAppend(a[1..], b);
      var head := if IsStripped(a[0]) then [] else [a[0]];
      assert StripControls(a + b) == head + (StripControls(a[1..]) + StripControls(b));
      assert StripControls(a) == head + StripControls(a[1..]);
    } else {
      assert a + b == b;
    }
  }

  /** A run of whitespace: at least one character, all of them `\s`. */
  predicate SpaceRun(w: string)
  {
    |w| >= 1 && forall i :: 0 <= i < |w| ==> IsSpace(w[i])
  }

  /** Text without whitespace is left as it is. */
  lemma {:induction false} CollapseNoSpace(s: string)
    requires forall i :: 0 <= i < |s| ==> !IsSpace(s[i])
    ensures CollapseSpaces(s) == s
  {
    if s != [] {
      CollapseNoSpace(s[1..]);
    }
  }

  /** Skipping a whitespace run lands on what follows it. */
  lemma {:induction false} SkipRun(w: string, b: string)
    requires forall i :: 0 <= i < |w| ==> IsSpace(w[i])
    requires b == [] || !IsSpace(b[0])
    ensures SkipSpaces(w + b) == b
  {
    if w != [] {
      assert (w + b)[0] == w[0];
      assert (w + b)[1..] == w[1..] + b;
      SkipRun(w[1..], b);
    }
  }

  /** Skipping the leading whitespace of text that ends in a non-space does not reach what follows. */
  lemma {:induction false} SkipPrefix(a: string, rest: string)
    requires a != [] && !IsSpace(a[|a| - 1])
    ensures SkipSpaces(a + rest) == SkipSpaces(a) + rest
  {
    assert (a + rest)[0] == a[0];
    if IsSpace(a[0]) {
      assert |a| >= 2;
      assert (a + rest)[1..] == a[1..] + rest;
      SkipPrefix(a[1..], rest);
    }
  }

  /** Text starting with a non-space keeps its first character and collapses the rest. */
  lemma CollapseText(c: char, t: string)
    requires !IsSpace(c)
    ensures CollapseSpaces([c] + t) == [c] + CollapseSpaces(t)
  {
    assert ([c] + t)[1..] == t;
  }

  /** Text starting with whitespace gets one space for its leading run. */
  lemma CollapseSpace(s: string)
    requires s != [] && IsSpace(s[0])
    ensures CollapseSpaces(s) == " " + CollapseSpaces(SkipSpaces(s))
  {
  }

  /** A leading run of whitespace becomes one space. */
  lemma CollapseLeadingRun(w: string, b: string)
    requires SpaceRun(w)
    requires b == [] || !IsSpace(b[0])
    ensures CollapseSpaces(w + b) == " " + CollapseSpaces(b)
  {
    assert (w + b)[0] == w[0];
    CollapseSpace(w + b);
    SkipRun(w, b);
  }

  /** Text whose leading whitespace ends inside it: that run becomes one space, whatever follows. */
  lemma CollapseAfterSpace(a: string, rest: string)
    requires a != [] && IsSpace(a[0]) && !IsSpace(a[|a| - 1])
    ensures CollapseSpaces(a + rest) == " " + CollapseSpaces(SkipSpaces(a) + rest)
    ensures CollapseSpaces(a) == " " + CollapseSpaces(SkipSpaces(a))
  {
    assert (a + rest)[0] == a[0];
    CollapseSpace(a + rest);
    CollapseSpace(a);
    SkipPrefix(a, rest);
  }

  /** Whatever collapsing does after `a`, it does after a non-space in front of `a` too. */
  lemma CollapseAfterText(c: char, a: string, rest: string, tail: string)
    requires !IsSpace(c)
    requires CollapseSpaces(a + rest) == CollapseSpaces(a) + tail
    ensures CollapseSpaces([c] + a + rest) == CollapseSpaces([c] + a) + tail
  {
    Strings.AppendAssoc([c], a, rest);
    CollapseText(c, a + rest);
    CollapseText(c, a);
    Strings.AppendAssoc([c], CollapseSpaces(a), tail);
  }

  /**
   * A maximal run of whitespace becomes exactly one space, in its place: the
   * text before it and the text after it are collapsed on their own.
   */
  lemma {:induction false} CollapseRun(a: string, w: string, b: string)
    requires a == [] || !IsSpace(a[|a| - 1])
    requires SpaceRun(w)
    requires b == [] || !IsSpace(b[0])
    ensures CollapseSpaces(a + w + b) == CollapseSpaces(a) + " " + CollapseSpaces(b)
    decreases |a|
  {
    var rest, tail := w + b, " " + CollapseSpaces(b);
    Strings.AppendAssoc(a, w, b);
    Strings.AppendAssoc(CollapseSpaces(a), " ", CollapseSpaces(b));
    if a == [] {
      assert a + rest == rest;
      CollapseLeadingRun(w, b);
    } else if IsSpace(a[0]) {
      var a' := SkipSpaces(a);
      assert a' != [] && a'[|a'| - 1] == a[|a| - 1];
      CollapseRun(a', w, b);
      Strings.AppendAssoc(a', w, b);
      Strings.AppendAssoc(CollapseSpaces(a'), " ", CollapseSpaces(b));
      CollapseAfterSpace(a, rest);
      Strings.AppendAssoc(" ", CollapseSpaces(a'), tail);
    } else {
      var a1 := a[1..];
      assert a1 == [] || a1[|a1| - 1] == a[|a| - 1];
      CollapseRun(a1, w, b);
      Strings.AppendAssoc(a1, w, b);
      Strings.AppendAssoc(CollapseSpaces(a1), " ", CollapseSpaces(b));
      assert a == [a[0]] + a1;
      CollapseAfterText(a[0], a1, rest, tail);
    }
  }

  /** The only whitespace is a single space, never two in a row. */
  predicate SpacesCollapsed(r: string)
  {
    && (forall i :: 0 <= i < |r| && IsSpace(r[i]) ==> r[i] == ' ')
    && (forall i :: 0 <= i < |r| - 1 && IsSpace(r[i]) ==> !IsSpace(r[i + 1]))
  }

  /** The characters of `s` that are not whitespace, in order. */
  function Visible(s: string): string
  {
    if s == [] then [] else (if IsSpace(s[0]) then [] else [s[0]]) + Visible(s[1..])
  }

  /** Prepending one character keeps whitespace collapsed when it is a lone space or not whitespace. */
  lemma ConsCollapsed(ch: char, r: string)
    requires SpacesCollapsed(r)
    requires IsSpace(ch) ==> ch == ' ' && (r == [] || !IsSpace(r[0]))
    ensures SpacesCollapsed([ch] + r)
  {
    var t := [ch] + r;
    forall i | 0 < i < |t|
      ensures t[i] == r[i - 1]
    {
    }
  }

  lemma {:induction false} CollapseShape(s: string)
    ensures SpacesCollapsed(CollapseSpaces(s))
    decreases |s|
  {
    if s != [] {
      if IsSpace(s[0]) {
        var t := SkipSpaces(s);
        CollapseShape(t);
        ConsCollapsed(' ', CollapseSpaces(t));
      } else {
        CollapseShape(s[1..]);
        ConsCollapsed(s[0], CollapseSpaces(s[1..]));
      }
    }
  }

  /** Collapsing introduces no character other than a space. */
  lemma {:induction false} CollapseChars(s: string)
    ensures forall c :: c in CollapseSpaces(s) ==> c == ' ' || c in s
    decreases |s|
  {
    if s != [] {
      if IsSpace(s[0]) {
        var t := SkipSpaces(s);
        CollapseChars(t);
        assert forall c :: c in t ==> c in s;
      } else {
        CollapseChars(s[1..]);
        assert forall c :: c in s[1..] ==> c in s;
      }
    }
  }

  /** Collapsing a string whose whitespace is already collapsed changes nothing. */
  lemma {:induction false} CollapseFixpoint(r: string)
    requires SpacesCollapsed(r)
    ensures CollapseSpaces(r) == r
  {
    if r != [] {
      assert SpacesCollapsed(r[1..]);
      CollapseFixpoint(r[1..]);
      if IsSpace(r[0]) {
        assert r[1..] == [] || !IsSpace(r[1]);
        assert SkipSpaces(r) == r[1..];
      }
    }
  }

  /** Deleting control characters from a string that has none changes nothing. */
  lemma {:induction false} StripFixpoint(r: string)
    requires forall i :: 0 <= i < |r| ==> !IsStripped(r[i])
    ensures StripControls(r) == r
  {
    if r != [] {
      StripFixpoint(r[1..]);
    }
  }

  /**
   * A sanitized title holds no character of `[\0-\x19\x80-\x9f]`, its only
   * whitespace is single spaces, and sanitizing it again changes nothing.
   */
  lemma SanitizeTitleIdempotent(x: string)
    ensures var r := SanitizeTitle(x);
      && (forall i :: 0 <= i < |r| ==> !IsStripped(r[i]))
      && SpacesCollapsed(r)
      && SanitizeTitle(r) == r
  {
    var s := StripControls(x);
    var r := SanitizeTitle(x);
    CollapseShape(s);
    CollapseChars(s);
    forall i | 0 <= i < |r|
      ensures !IsStripped(r[i])
    {
      assert r[i] in r;
    }
    StripFixpoint(r);
    CollapseFixpoint(r);
  }

  lemma {:induction false} VisibleSkip(s: string)
    ensures Visible(SkipSpaces(s)) == Visible(s)
  {
    if s != [] && IsSpace(s[0]) {
      VisibleSkip(s[1..]);
    }
  }

  lemma {:induction false} VisibleCollapse(s: string)
    ensures Visible(CollapseSpaces(s)) == Visible(s)
    decreases |s|
  {
    if s != [] {
      if IsSpace(s[0]) {
        var t := SkipSpaces(s);
        VisibleCollapse(t);
        VisibleSkip(s);
        assert (" " + CollapseSpaces(t))[1..] == CollapseSpaces(t);
      } else {
        VisibleCollapse(s[1..]);
        assert ([s[0]] + CollapseSpaces(s[1..]))[1..] == CollapseSpaces(s[1..]);
      }
    }
  }

  /**
   * Nothing but whitespace changes in the second step: the visible characters
   * of the title are those of the input with the control characters deleted.
   */
  lemma SanitizeTitleKeepsVisible(x: string)
    ensures Visible(SanitizeTitle(x)) == Visible(StripControls(x))
  {
    VisibleCollapse(StripControls(x));
  }
}
