/**
 * The few `str` operations of Python that the utilities rely on, over `string`
 * (a sequence of code points): `split(sep, 1)`, `rsplit(sep, 1)`, `split(sep)`,
 * `sep.join(...)` and `os.path.join` for two POSIX components.
 */
module Strings {
  import opened Wrappers

  /** Position of the first `c` in `s`, or None when `s` holds no `c`. */
  function FirstIndex(s: string, c: char): (r: Option<nat>)
    ensures r.None? <==> c !in s
    ensures r.Some? ==> r.value < |s| && s[r.value] == c && c !in s[..r.value]
  {
    if s == [] then None
    else if s[0] == c then Some(0)
    else
      match FirstIndex(s[1..], c)
      case None => None
      case Some(i) =>
        assert s[..i + 1] == [s[0]] + s[1..][..i];
        Some(i + 1)
  }

  /** Position of the last `c` in `s`, or None when `s` holds no `c`. */
  function LastIndex(s: string, c: char): (r: Option<nat>)
    ensures r.None? <==> c !in s
    ensures r.Some? ==> r.value < |s| && s[r.value] == c && c !in s[r.value + 1..]
  {
    if s == [] then None
    else if s[|s| - 1] == c then Some(|s| - 1)
    else
      var init := s[..|s| - 1];
      match LastIndex(init, c)
      case None =>
        assert s == init + [s[|s| - 1]];
        None
      case Some(i) =>
        assert s[i + 1..] == init[i + 1..] + [s[|s| - 1]];
        Some(i)
  }

  /**
   * `head, tail = s.split(sep, 1)`: None stands for the ValueError that the
   * unpacking raises when `s` holds no separator. The head holds no separator,
   * which fixes the split uniquely.
   */
  function SplitOnce(s: string, sep: char): (r: Option<(string, string)>)
    ensures r.None? <==> sep !in s
    ensures r.Some? ==> s == r.value.0 + [sep] + r.value.1 && sep !in r.value.0
  {
    match FirstIndex(s, sep)
    case None => None
    case Some(i) =>
      assert s == s[..i] + [sep] + s[i + 1..];
      Some((s[..i], s[i + 1..]))
  }

  /**
   * `head, tail = s.rsplit(sep, 1)`: as SplitOnce, but at the last separator,
   * so the tail holds no separator and the head may hold several.
   */
  function RSplitOnce(s: string, sep: char): (r: Option<(string, string)>)
    ensures r.None? <==> sep !in s
    ensures r.Some? ==> s == r.value.0 + [sep] + r.value.1 && sep !in r.value.1
  {
    match LastIndex(s, sep)
    case None => None
    case Some(i) =>
      assert s == s[..i] + [sep] + s[i + 1..];
      Some((s[..i], s[i + 1..]))
  }

  /** No part holds the separator. */
  predicate SeparatorFree(parts: seq<string>, sep: char)
  {
    forall i :: 0 <= i < |parts| ==> sep !in parts[i]
  }

  /** `sep.join(parts)` for a non-empty list of parts. */
  function Join(parts: seq<string>, sep: char): string
    requires |parts| >= 1
  {
    if |parts| == 1 then parts[0] else parts[0] + [sep] + Join(parts[1..], sep)
  }

  /**
   * `s.split(sep)`: never empty (the empty string splits into one empty part)
   * and no part holds the separator.
   */
  function Split(s: string, sep: char): (parts: seq<string>)
    ensures |parts| >= 1
    ensures SeparatorFree(parts, sep)
    decreases |s|
  {
    match SplitOnce(s, sep)
    case None => [s]
    case Some((head, tail)) => [head] + Split(tail, sep)
  }

  /** Joining the parts of a split gives the string back. */
  lemma {:induction false} JoinSplit(s: string, sep: char)
    ensures Join(Split(s, sep), sep) == s
    decreases |s|
  {
    match SplitOnce(s, sep)
    case None =>
    case Some((head, tail)) =>
      var rest := Split(tail, sep);
      JoinSplit(tail, sep);
      assert ([head] + rest)[1..] == rest;
  }

  /** Splitting undoes joining when no part holds the separator. */
  lemma {:induction false} SplitJoin(parts: seq<string>, sep: char)
    requires |parts| >= 1
    requires SeparatorFree(parts, sep)
    ensures Split(Join(parts, sep), sep) == parts
  {
    if |parts| == 1 {
      assert sep !in parts[0];
    } else {
      var head, tail := parts[0], Join(parts[1..], sep);
      var s := Join(parts, sep);
      assert s == head + [sep] + tail;
      assert SeparatorFree(parts[1..], sep);
      SplitJoin(parts[1..], sep);
      var r := SplitOnce(s, sep);
      assert r.Some?;
      SplitUnique(head, tail, r.value.0, r.value.1, sep);
      assert r == Some((head, tail));
      assert Split(s, sep) == [head] + Split(tail, sep);
      assert parts == [head] + parts[1..];
    }
  }

  /** A split at a separator whose head holds no separator is the first one. */
  lemma SplitUnique(a: string, b: string, a': string, b': string, sep: char)
    requires a + [sep] + b == a' + [sep] + b'
    requires sep !in a && sep !in a'
    ensures a == a' && b == b'
  {
    var s := a + [sep] + b;
    assert forall i :: 0 <= i < |a| ==> s[i] == a[i];
    assert forall i :: 0 <= i < |a'| ==> s[i] == a'[i];
    assert s[|a|] == sep && s[|a'|] == sep;
    assert a == s[..|a|] == a';
    assert b == s[|a| + 1..] == b';
  }

  /** A split at a separator whose tail holds no separator is the last one. */
  lemma RSplitUnique(a: string, b: string, a': string, b': string, sep: char)
    requires a + [sep] + b == a' + [sep] + b'
    requires sep !in b && sep !in b'
    ensures a == a' && b == b'
  {
    var s := a + [sep] + b;
    assert forall j :: |a| < j < |s| ==> s[j] == b[j - |a| - 1];
    assert forall j :: |a'| < j < |s| ==> s[j] == b'[j - |a'| - 1];
    assert s[|a|] == sep && s[|a'|] == sep;
    assert a == s[..|a|] == a';
    assert b == s[|a| + 1..] == b';
  }

  lemma AppendAssoc<T>(a: seq<T>, b: seq<T>, c: seq<T>)
    ensures (a + b) + c == a + (b + c)
  {
  }

  /**
   * `os.path.join(dir, name)` on POSIX: an absolute `name` replaces `dir`,
   * otherwise a `/` is inserted unless `dir` is empty or already ends in one.
   */
  function PathJoin(dir: string, name: string): (p: string)
    ensures |name| >= 1 && name[0] == '/' ==> p == name
    ensures (|name| == 0 || name[0] != '/') && |dir| >= 1 && dir[|dir| - 1] != '/' ==> p == dir + "/" + name
    ensures |p| >= |name| && p[|p| - |name|..] == name
  {
    if |name| >= 1 && name[0] == '/' then name
    else if dir == [] || dir[|dir| - 1] == '/' then dir + name
    else dir + "/" + name
  }
}
