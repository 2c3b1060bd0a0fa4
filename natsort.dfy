/**
 * `natsort_ints`: sort strings by a key that splits each one at its maximal
 * runs of decimal digits (`re.split(r'(\d+)', s)`), turns every digit run into
 * its integer value and compares the resulting tuples lexicographically, so
 * that "file2" comes before "file10".
 */
module NatSort {
  import Decimal

  /** One element of the sort key: text between digit runs, or a digit run's value. */
  datatype KeyPart = Text(text: string) | Num(value: nat)

  /** The length of the longest prefix of `s` whose characters are digits exactly when `digits` holds. */
  function Run(s: string, digits: bool): (n: nat)
    ensures n <= |s|
    ensures forall i :: 0 <= i < n ==> Decimal.IsDigit(s[i]) == digits
    ensures n == |s| || Decimal.IsDigit(s[n]) != digits
  {
    if s != [] && Decimal.IsDigit(s[0]) == digits then 1 + Run(s[1..], digits) else 0
  }

  predicate NoDigits(s: string) { forall i :: 0 <= i < |s| ==> !Decimal.IsDigit(s[i]) }

  /** The concatenation of all pieces. */
  function Concat(p: seq<string>): string
  {
    if p == [] then [] else p[0] + Concat(p[1..])
  }

  /**
   * Piece `i` of a split: even pieces hold no digit and only the first and
   * the last may be empty; odd pieces are non-empty digit runs.
   */
  predicate PieceShape(p: seq<string>, i: int)
    requires 0 <= i < |p|
  {
    if i % 2 == 0 then NoDigits(p[i]) && (0 < i < |p| - 1 ==> p[i] != [])
    else p[i] != [] && Decimal.AllDigits(p[i])
  }

  /** `re.split(r'(\d+)', s)`: text, digit run, text, ..., text. */
  function Pieces(s: string): (p: seq<string>)
    ensures |p| % 2 == 1
    decreases |s|
  {
    var t := Run(s, false);
    if t == |s| then [s]
    else
      var rest := s[t..];
      var d := Run(rest, true);
      assert rest[0] == s[t];
      assert d >= 1;
      [s[..t], rest[..d]] + Pieces(rest[d..])
  }

  /** Joining the pieces gives the string back. */
  lemma {:induction false} PiecesConcat(s: string)
    ensures Concat(Pieces(s)) == s
    decreases |s|
  {
    var t := Run(s, false);
    if t == |s| {
      assert Concat([s]) == s + Concat([]);
    } else {
      var rest := s[t..];
      var d := Run(rest, true);
      var a, b, c := s[..t], rest[..d], rest[d..];
      PiecesConcat(c);
      assert Pieces(s) == [a, b] + Pieces(c);
      ConcatTwo(a, b, Pieces(c));
      SliceTwice(s, t, d);
    }
  }

  lemma SliceTwice(s: string, t: nat, d: nat)
    requires t + d <= |s|
    ensures s == s[..t] + (s[t..][..d] + s[t..][d..])
  {
    assert s[t..][..d] + s[t..][d..] == s[t..];
  }

  lemma ConcatTwo(a: string, b: string, tail: seq<string>)
    ensures Concat([a, b] + tail) == a + (b + Concat(tail))
  {
    assert ([a, b] + tail)[1..][1..] == tail;
  }

  /** The pieces alternate digit-free text and maximal digit runs. */
  lemma {:induction false} PiecesShape(s: string)
    ensures forall i :: 0 <= i < |Pieces(s)| ==> PieceShape(Pieces(s), i)
    ensures s != [] && !Decimal.IsDigit(s[0]) ==> Pieces(s)[0] != []
    decreases |s|
  {
    var t := Run(s, false);
    if t < |s| {
      var rest := s[t..];
      var d := Run(rest, true);
      var tail := Pieces(rest[d..]);
      PiecesShape(rest[d..]);
      var p := Pieces(s);
      assert p == [s[..t], rest[..d]] + tail;
      assert rest[d..] != [] ==> !Decimal.IsDigit(rest[d..][0]);
      forall i | 0 <= i < |p|
        ensures PieceShape(p, i)
      {
        if i >= 2 {
          assert p[i] == tail[i - 2];
          assert PieceShape(tail, i - 2);
        }
      }
    }
  }

  /** `convert`: `int(text)` when `text` is a digit string, else the text itself. */
  function Convert(text: string): KeyPart
  {
    match Decimal.ParseNat(text)
    case Some(n) => Num(n)
    case None => Text(text)
  }

  /** `map(f, p)`. */
  function Map<A, B>(p: seq<A>, f: A -> B): (r: seq<B>)
    ensures |r| == |p|
  {
    if p == [] then [] else [f(p[0])] + Map(p[1..], f)
  }

  lemma {:induction false} MapAt<A, B>(p: seq<A>, f: A -> B, i: nat)
    requires i < |p|
    ensures Map(p, f)[i] == f(p[i])
  {
    if i > 0 {
      MapAt(p[1..], f, i - 1);
    }
  }

  lemma MapTwo<A, B>(p: seq<A>, f: A -> B)
    requires |p| >= 2
    ensures Map(p, f) == [f(p[0]), f(p[1])] + Map(p[2..], f)
  {
    assert p[1..][1..] == p[2..];
  }

  /** `alphanum_key`. */
  function Key(s: string): seq<KeyPart>
  {
    Map(Pieces(s), Convert)
  }

  /** Keys alternate text and numbers, starting and ending with text. */
  lemma KeyShape(s: string)
    ensures |Key(s)| % 2 == 1
    ensures forall i :: 0 <= i < |Key(s)| ==> (Key(s)[i].Text? <==> i % 2 == 0)
  {
    var p := Pieces(s);
    PiecesShape(s);
    forall i | 0 <= i < |p|
      ensures Key(s)[i].Text? <==> i % 2 == 0
    {
      MapAt(p, Convert, i);
      assert PieceShape(p, i);
      if i % 2 == 0 && p[i] != [] {
        assert !Decimal.IsDigit(p[i][0]);
      }
    }
  }

  /** The leading run ends where the text whose characters all match `digits` ends. */
  lemma RunOf(a: string, b: string, digits: bool)
    requires forall i :: 0 <= i < |a| ==> Decimal.IsDigit(a[i]) == digits
    requires b == [] || Decimal.IsDigit(b[0]) != digits
    ensures Run(a + b, digits) == |a|
  {
    var s := a + b;
    assert forall i :: 0 <= i < |a| ==> s[i] == a[i];
    assert |a| < |s| ==> s[|a|] == b[0];
  }

  /** A string made of text without digits, a digit run and a rest that does not start with a digit. */
  lemma KeyCons(t: string, d: string, u: string)
    requires NoDigits(t)
    requires Decimal.ParseNat(d).Some?
    requires u == [] || !Decimal.IsDigit(u[0])
    ensures Key(t + d + u) == [Text(t), Num(Decimal.ParseNat(d).value)] + Key(u)
  {
    var p := Pieces(t + d + u);
    PiecesCons(t, d, u);
    assert Decimal.ParseNat(t).None? by {
      assert t == [] || !Decimal.IsDigit(t[0]);
    }
    MapTwo(p, Convert);
    assert p[2..] == Pieces(u);
  }

  /** The pieces of such a string: the text, the digit run, then the pieces of the rest. */
  lemma PiecesCons(t: string, d: string, u: string)
    requires NoDigits(t)
    requires |d| >= 1 && Decimal.AllDigits(d)
    requires u == [] || !Decimal.IsDigit(u[0])
    ensures Pieces(t + d + u) == [t, d] + Pieces(u)
  {
    var s := t + (d + u);
    assert t + d + u == s;
    RunOf(t, d + u, false);
    RunOf(d, u, true);
    assert s[|t|..] == d + u && s[..|t|] == t;
    assert (d + u)[|d|..] == u && (d + u)[..|d|] == d;
    PiecesUnfold(s, |t|, |d|);
  }

  /** One step of the split, with the two run lengths named. */
  lemma PiecesUnfold(s: string, t: nat, d: nat)
    requires t == Run(s, false) < |s|
    requires d == Run(s[t..], true)
    ensures Pieces(s) == [s[..t], s[t..][..d]] + Pieces(s[t..][d..])
  {
  }

  /** Lexicographic order on sequences, as Python compares strings and tuples. */
  predicate LexLt<T(==)>(a: seq<T>, b: seq<T>, lt: (T, T) -> bool)
  {
    if a == [] then b != []
    else b != [] && (lt(a[0], b[0]) || (a[0] == b[0] && LexLt(a[1..], b[1..], lt)))
  }

  ghost predicate StrictTotalOrder<T(!new)>(lt: (T, T) -> bool)
  {
    && (forall x :: !lt(x, x))
    && (forall x, y, z :: lt(x, y) && lt(y, z) ==> lt(x, z))
    && (forall x, y :: x == y || lt(x, y) || lt(y, x))
  }

  lemma {:induction false} LexIrreflexive<T(!new)>(a: seq<T>, lt: (T, T) -> bool)
    requires StrictTotalOrder(lt)
    ensures !LexLt(a, a, lt)
  {
    if a != [] {
      LexIrreflexive(a[1..], lt);
    }
  }

  lemma {:induction false} LexTransitive<T(!new)>(a: seq<T>, b: seq<T>, c: seq<T>, lt: (T, T) -> bool)
    requires StrictTotalOrder(lt)
    requires LexLt(a, b, lt) && LexLt(b, c, lt)
    ensures LexLt(a, c, lt)
  {
    if a != [] && a[0] == b[0] && b[0] == c[0] {
      LexTransitive(a[1..], b[1..], c[1..], lt);
    }
  }

  lemma {:induction false} LexTotal<T(!new)>(a: seq<T>, b: seq<T>, lt: (T, T) -> bool)
    requires StrictTotalOrder(lt)
    ensures a == b || LexLt(a, b, lt) || LexLt(b, a, lt)
  {
    if a != [] && b != [] && a[0] == b[0] {
      LexTotal(a[1..], b[1..], lt);
      if a[1..] == b[1..] {
        assert a == [a[0]] + a[1..] && b == [b[0]] + b[1..];
      }
    }
  }

  /** Equal first elements leave the decision to the second. */
  lemma LexAfterCommonHead<T>(x: T, y1: T, y2: T, r1: seq<T>, r2: seq<T>, lt: (T, T) -> bool)
    requires lt(y1, y2)
    ensures LexLt([x, y1] + r1, [x, y2] + r2, lt)
  {
    var a, b := [x, y1] + r1, [x, y2] + r2;
    assert a[1..] == [y1] + r1 && b[1..] == [y2] + r2;
  }

  /** Characters compare by code point. */
  function CharLt(a: char, b: char): bool { a < b }

  /** Python's `<` on `str`. */
  predicate StrLt(a: string, b: string) { LexLt(a, b, CharLt) }

  /**
   * `<` on key parts. Keys line up text with text and numbers with numbers
   * (KeyShape), so the mixed cases, where Python would raise, are never
   * reached; they are ordered only to make the order total.
   */
  function PartLt(x: KeyPart, y: KeyPart): bool
  {
    match (x, y)
    case (Text(a), Text(b)) => StrLt(a, b)
    case (Num(m), Num(n)) => m < n
    case (Text(_), Num(_)) => true
    case (Num(_), Text(_)) => false
  }

  /** Python's `<` on the key tuples. */
  predicate KeyLt(a: seq<KeyPart>, b: seq<KeyPart>) { LexLt(a, b, PartLt) }

  lemma PartOrder()
    ensures StrictTotalOrder(PartLt)
  {
    assert StrictTotalOrder(CharLt);
    forall x: KeyPart
      ensures !PartLt(x, x)
    {
      if x.Text? {
        LexIrreflexive(x.text, CharLt);
      }
    }
    forall x: KeyPart, y: KeyPart, z: KeyPart | PartLt(x, y) && PartLt(y, z)
      ensures PartLt(x, z)
    {
      if x.Text? && y.Text? && z.Text? {
        LexTransitive(x.text, y.text, z.text, CharLt);
      }
    }
    forall x: KeyPart, y: KeyPart
      ensures x == y || PartLt(x, y) || PartLt(y, x)
    {
      if x.Text? && y.Text? {
        LexTotal(x.text, y.text, CharLt);
      }
    }
  }

  /** The key order is a strict total order on keys. */
  lemma KeyOrder(a: seq<KeyPart>, b: seq<KeyPart>, c: seq<KeyPart>)
    ensures !KeyLt(a, a)
    ensures KeyLt(a, b) && KeyLt(b, c) ==> KeyLt(a, c)
    ensures a == b || KeyLt(a, b) || KeyLt(b, a)
  {
    PartOrder();
    LexIrreflexive(a, PartLt);
    if KeyLt(a, b) && KeyLt(b, c) {
      LexTransitive(a, b, c, PartLt);
    }
    LexTotal(a, b, PartLt);
  }

  /** "Not less than" is transitive, as a sort needs. */
  lemma NotLessTransitive(a: seq<KeyPart>, b: seq<KeyPart>, c: seq<KeyPart>)
    requires !KeyLt(b, a) && !KeyLt(c, b)
    ensures !KeyLt(c, a)
  {
    KeyOrder(a, b, c);
    KeyOrder(c, a, b);
    KeyOrder(b, c, a);
  }

  /** Text followed by a smaller number sorts first: "file2" before "file10". */
  lemma NumbersCompareAsIntegers(t: string, m: nat, n: nat, u: string, v: string)
    requires NoDigits(t) && m < n
    requires u == [] || !Decimal.IsDigit(u[0])
    requires v == [] || !Decimal.IsDigit(v[0])
    ensures KeyLt(Key(t + Decimal.Show(m) + u), Key(t + Decimal.Show(n) + v))
  {
    var dm, dn := Decimal.Show(m), Decimal.Show(n);
    Decimal.ParseShow(m);
    Decimal.ParseShow(n);
    KeyCons(t, dm, u);
    KeyCons(t, dn, v);
    assert PartLt(Num(m), Num(n));
    LexAfterCommonHead(Text(t), Num(m), Num(n), Key(u), Key(v), PartLt);
  }

  // ----- `sorted(iterable, key=...)`: a stable sort by a strict weak order --------

  /**
   * What `sorted` needs of `<` on keys: irreflexive, transitive, and
   * "not less than" transitive too, so that equal keys form classes.
   */
  ghost predicate StrictWeakOrder<T(!new)>(less: (T, T) -> bool)
  {
    && (forall a :: !less(a, a))
    && (forall a, b, c :: less(a, b) && less(b, c) ==> less(a, c))
    && (forall a, b, c :: !less(b, a) && !less(c, b) ==> !less(c, a))
  }

  /** No element is followed by a smaller one. */
  predicate SortedBy<T>(r: seq<T>, less: (T, T) -> bool)
  {
    forall i, j :: 0 <= i < j < |r| ==> !less(r[j], r[i])
  }

  /** Put `x` before the first element that is not smaller than it. */
  function InsertBy<T>(x: T, ys: seq<T>, less: (T, T) -> bool): (r: seq<T>)
    ensures multiset(r) == multiset(ys) + multiset{x}
  {
    if ys == [] || !less(ys[0], x) then [x] + ys
    else
      assert ys == [ys[0]] + ys[1..];
      [ys[0]] + InsertBy(x, ys[1..], less)
  }

  /** Insertion sort from the back: each element goes before the later ones it does not exceed, so ties keep their order. */
  function SortBy<T>(xs: seq<T>, less: (T, T) -> bool): (r: seq<T>)
    ensures multiset(r) == multiset(xs)
  {
    if xs == [] then []
    else
      assert xs == [xs[0]] + xs[1..];
      InsertBy(xs[0], SortBy(xs[1..], less), less)
  }

  /** No element of `ys` is smaller than `k`. */
  predicate AtLeast<T>(ys: seq<T>, k: T, less: (T, T) -> bool)
  {
    forall i :: 0 <= i < |ys| ==> !less(ys[i], k)
  }

  lemma SortedCons<T>(y: T, t: seq<T>, less: (T, T) -> bool)
    requires SortedBy(t, less) && AtLeast(t, y, less)
    ensures SortedBy([y] + t, less)
  {
    var r := [y] + t;
    forall i, j | 0 <= i < j < |r|
      ensures !less(r[j], r[i])
    {
      assert r[j] == t[j - 1];
      if i > 0 {
        assert r[i] == t[i - 1];
      }
    }
  }

  lemma {:induction false} InsertAtLeast<T>(x: T, ys: seq<T>, k: T, less: (T, T) -> bool)
    requires AtLeast(ys, k, less) && !less(x, k)
    ensures AtLeast(InsertBy(x, ys, less), k, less)
  {
    if ys != [] && less(ys[0], x) {
      InsertAtLeast(x, ys[1..], k, less);
      var r := InsertBy(x, ys, less);
      forall i | 0 < i < |r|
        ensures !less(r[i], k)
      {
        assert r[i] == InsertBy(x, ys[1..], less)[i - 1];
      }
    }
  }

  /** Inserting into a sorted list keeps it sorted. */
  lemma {:induction false} InsertSorted<T(!new)>(x: T, ys: seq<T>, less: (T, T) -> bool)
    requires StrictWeakOrder(less) && SortedBy(ys, less)
    ensures SortedBy(InsertBy(x, ys, less), less)
  {
    if ys == [] || !less(ys[0], x) {
      SortedCons(x, ys, less);
    } else {
      assert SortedBy(ys[1..], less);
      InsertSorted(x, ys[1..], less);
      assert AtLeast(ys[1..], ys[0], less) by {
        forall i | 0 <= i < |ys| - 1
          ensures !less(ys[1..][i], ys[0])
        {
          assert ys[1..][i] == ys[i + 1];
        }
      }
      InsertAtLeast(x, ys[1..], ys[0], less);
      SortedCons(ys[0], InsertBy(x, ys[1..], less), less);
    }
  }

  lemma {:induction false} SortSorted<T(!new)>(xs: seq<T>, less: (T, T) -> bool)
    requires StrictWeakOrder(less)
    ensures SortedBy(SortBy(xs, less), less)
  {
    if xs != [] {
      SortSorted(xs[1..], less);
      InsertSorted(xs[0], SortBy(xs[1..], less), less);
    }
  }

  /** Neither is smaller: the two tie. */
  predicate Ties<T>(a: T, b: T, less: (T, T) -> bool)
  {
    !less(a, b) && !less(b, a)
  }

  /** The elements of `xs` that tie with `y`, in order. */
  function TiesWith<T>(xs: seq<T>, y: T, less: (T, T) -> bool): seq<T>
  {
    if xs == [] then []
    else if Ties(xs[0], y, less) then [xs[0]] + TiesWith(xs[1..], y, less)
    else TiesWith(xs[1..], y, less)
  }

  lemma {:induction false} InsertTies<T(!new)>(x: T, ys: seq<T>, y: T, less: (T, T) -> bool)
    requires StrictWeakOrder(less)
    ensures TiesWith(InsertBy(x, ys, less), y, less)
      == if Ties(x, y, less) then [x] + TiesWith(ys, y, less) else TiesWith(ys, y, less)
  {
    if ys == [] || !less(ys[0], x) {
      TiesCons(x, ys, y, less);
    } else {
      var h, tl := ys[0], ys[1..];
      InsertTies(x, tl, y, less);
      if Ties(x, y, less) {
        SmallerBreaksTie(h, x, y, less);
      }
      assert ys == [h] + tl;
      InsertByPast(x, h, tl, less);
      TiesPast(x, h, tl, InsertBy(x, tl, less), y, less);
    }
  }

  lemma InsertByPast<T>(x: T, h: T, tl: seq<T>, less: (T, T) -> bool)
    requires less(h, x)
    ensures InsertBy(x, [h] + tl, less) == [h] + InsertBy(x, tl, less)
  {
    assert ([h] + tl)[0] == h && ([h] + tl)[1..] == tl;
  }

  /** Putting `h`, which does not tie with `y` when `x` does, before both lists keeps them related. */
  lemma TiesPast<T>(x: T, h: T, tl: seq<T>, r: seq<T>, y: T, less: (T, T) -> bool)
    requires Ties(x, y, less) ==> !Ties(h, y, less)
    requires TiesWith(r, y, less) == if Ties(x, y, less) then [x] + TiesWith(tl, y, less) else TiesWith(tl, y, less)
    ensures TiesWith([h] + r, y, less)
      == if Ties(x, y, less) then [x] + TiesWith([h] + tl, y, less) else TiesWith([h] + tl, y, less)
  {
    TiesCons(h, r, y, less);
    TiesCons(h, tl, y, less);
  }

  lemma TiesCons<T>(h: T, rest: seq<T>, y: T, less: (T, T) -> bool)
    ensures TiesWith([h] + rest, y, less)
      == if Ties(h, y, less) then [h] + TiesWith(rest, y, less) else TiesWith(rest, y, less)
  {
    assert ([h] + rest)[1..] == rest;
  }

  /** An element smaller than one that ties with `y` does not tie with `y`. */
  lemma SmallerBreaksTie<T(!new)>(h: T, x: T, y: T, less: (T, T) -> bool)
    requires StrictWeakOrder(less)
    requires less(h, x) && Ties(x, y, less)
    ensures !Ties(h, y, less)
  {
    assert !less(y, x) && !less(h, y) ==> !less(h, x);
  }

  /** The sort is stable: the elements that tie with any `y` keep their input order. */
  lemma {:induction false} SortStable<T(!new)>(xs: seq<T>, y: T, less: (T, T) -> bool)
    requires StrictWeakOrder(less)
    ensures TiesWith(SortBy(xs, less), y, less) == TiesWith(xs, y, less)
  {
    if xs != [] {
      SortStable(xs[1..], y, less);
      InsertTies(xs[0], SortBy(xs[1..], less), y, less);
    }
  }

  // ----- `natsort_ints` ---------------------------------------------------------

  /** `alphanum_key(a) < alphanum_key(b)`. */
  predicate KeyLess(a: string, b: string)
  {
    KeyLt(Key(a), Key(b))
  }

  /** The key order is a strict weak order on strings, and two strings tie exactly when their keys are equal. */
  lemma KeyLessOrder()
    ensures StrictWeakOrder(KeyLess)
    ensures forall a, b :: Ties(a, b, KeyLess) <==> Key(a) == Key(b)
  {
    forall a: string
      ensures !KeyLess(a, a)
    {
      KeyOrder(Key(a), Key(a), Key(a));
    }
    forall a: string, b: string, c: string | KeyLess(a, b) && KeyLess(b, c)
      ensures KeyLess(a, c)
    {
      KeyOrder(Key(a), Key(b), Key(c));
    }
    forall a: string, b: string, c: string | !KeyLess(b, a) && !KeyLess(c, b)
      ensures !KeyLess(c, a)
    {
      NotLessTransitive(Key(a), Key(b), Key(c));
    }
    forall a: string, b: string
      ensures Ties(a, b, KeyLess) <==> Key(a) == Key(b)
    {
      KeyOrder(Key(a), Key(b), Key(a));
    }
  }

  /** `natsort_ints(iterable)`: `sorted(iterable, key=alphanum_key)`. */
  function NatSortInts(xs: seq<string>): (r: seq<string>)
    ensures multiset(r) == multiset(xs)
    ensures SortedBy(r, KeyLess)
  {
    KeyLessOrder();
    SortSorted(xs, KeyLess);
    SortBy(xs, KeyLess)
  }

  /** The elements of `xs` whose key is `k`, in order. */
  function WithKey(xs: seq<string>, k: seq<KeyPart>): seq<string>
  {
    if xs == [] then []
    else if Key(xs[0]) == k then [xs[0]] + WithKey(xs[1..], k)
    else WithKey(xs[1..], k)
  }

  lemma {:induction false} TiesAreEqualKeys(xs: seq<string>, y: string)
    ensures TiesWith(xs, y, KeyLess) == WithKey(xs, Key(y))
  {
    KeyLessOrder();
    if xs != [] {
      TiesAreEqualKeys(xs[1..], y);
    }
  }

  /** Stable, as `sorted` is: strings with the same key keep their input order. */
  lemma NatSortStable(xs: seq<string>, y: string)
    ensures WithKey(NatSortInts(xs), Key(y)) == WithKey(xs, Key(y))
  {
    KeyLessOrder();
    SortStable(xs, y, KeyLess);
    TiesAreEqualKeys(xs, y);
    TiesAreEqualKeys(NatSortInts(xs), y);
  }
}
