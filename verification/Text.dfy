/** Strings: splitting, joining, trimming and the order the engine sorts by. */
module Text {

  /** strings.Split(s, sep) for a one-character separator; never empty. */
  function Split(s: string, sep: char): (parts: seq<string>)
    ensures parts != []
    ensures forall i :: 0 <= i < |parts| ==> sep !in parts[i]
  {
    if s == [] then [""]
    else
      var rest := Split(s[1..], sep);
      if s[0] == sep then [""] + rest else [[s[0]] + rest[0]] + rest[1..]
  }

  /** strings.Join(parts, sep) for a one-character separator. */
  function Join(parts: seq<string>, sep: char): string {
    if parts == [] then ""
    else if |parts| == 1 then parts[0]
    else parts[0] + [sep] + Join(parts[1..], sep)
  }

  /** unicode.IsSpace. */
  predicate Space(c: char) {
    || c == ' ' || '\t' <= c <= '\r' || c == '\U{0085}' || c == '\U{00A0}' || c == '\U{1680}'
         || '\U{2000}' <= c <= '\U{200A}'
    || c == '\U{2028}' || c == '\U{2029}' || c == '\U{202F}' || c == '\U{205F}' || c == '\U{3000}'
  }

  predicate Blank(s: string) {
    forall i :: 0 <= i < |s| ==> Space(s[i])
  }

  function TrimLeft(s: string): string {
    if s != "" && Space(s[0]) then TrimLeft(s[1..]) else s
  }

  function TrimRight(s: string): string {
    if s != "" && Space(s[|s| - 1]) then TrimRight(s[..|s| - 1]) else s
  }

  /** strings.TrimSpace. */
  function Trim(s: string): string {
    TrimRight(TrimLeft(s))
  }

  lemma {:induction false} TrimRightSpec(s: string)
    ensures var r := TrimRight(s); r <= s && (r != "" ==> !Space(r[|r| - 1]))
  {
    if s != "" && Space(s[|s| - 1]) { TrimRightSpec(s[..|s| - 1]); }
  }

  lemma {:induction false} TrimLeftSpec(s: string)
    ensures TrimLeft(s) != "" ==> !Space(TrimLeft(s)[0])
  {
    if s != "" && Space(s[0]) { TrimLeftSpec(s[1..]); }
  }

  /** A trimmed text begins and ends without a space, and trimming it again changes nothing. */
  lemma Trimmed(s: string)
    ensures var r := Trim(s); (r != "" ==> !Space(r[0]) && !Space(r[|r| - 1])) && Trim(r) == r
  {
    TrimLeftSpec(s);
    TrimRightSpec(TrimLeft(s));
  }

  lemma PlusAssociates<T>(a: seq<T>, b: seq<T>, c: seq<T>)
    ensures a + (b + c) == a + b + c
  {
  }

  lemma {:induction false} SplitHead(a: string, s: string, sep: char)
    requires sep !in a
    ensures Split(a + [sep] + s, sep) == [a] + Split(s, sep)
    ensures Split(a, sep) == [a]
  {
    if a == [] {
      assert a + [sep] + s == [sep] + s;
    } else {
      SplitHead(a[1..], s, sep);
      assert (a + [sep] + s)[1..] == a[1..] + [sep] + s;
      assert [a[0]] + a[1..] == a;
    }
  }

  /** A character put in front of a list of parts. */
  function Prepend(c: char, parts: seq<string>, sep: char): seq<string>
    requires parts != []
  {
    if c == sep then [""] + parts else [[c] + parts[0]] + parts[1..]
  }

  lemma PrependAppend(c: char, head: seq<string>, tail: seq<string>, sep: char)
    requires head != []
    ensures Prepend(c, head + tail, sep) == Prepend(c, head, sep) + tail
  {
    assert (head + tail)[0] == head[0] && (head + tail)[1..] == head[1..] + tail;
  }

  lemma SplitCons(c: char, s: string, t: string, sep: char)
    requires t == [c] + s
    ensures Split(t, sep) == Prepend(c, Split(s, sep), sep)
  {
    assert t[1..] == s;
  }

  lemma {:induction false} SplitAppend(a: string, s: string, t: string, sep: char)
    requires t == a + [sep] + s
    ensures Split(t, sep) == Split(a, sep) + Split(s, sep)
  {
    if a == [] {
      assert t == [sep] + s;
      SplitCons(sep, s, t, sep);
    } else {
      SplitAppend(a[1..], s, a[1..] + [sep] + s, sep);
      SplitCons(a[0], a[1..] + [sep] + s, t, sep);
      SplitCons(a[0], a[1..], a, sep);
      PrependAppend(a[0], Split(a[1..], sep), Split(s, sep), sep);
    }
  }

  /** Splitting undoes joining. */
  lemma {:induction false} SplitJoin(parts: seq<string>, sep: char)
    requires parts != [] && forall i :: 0 <= i < |parts| ==> sep !in parts[i]
    ensures Split(Join(parts, sep), sep) == parts
  {
    if |parts| == 1 {
      SplitHead(parts[0], "", sep);
    } else {
      SplitHead(parts[0], Join(parts[1..], sep), sep);
      SplitJoin(parts[1..], sep);
    }
  }

  /** Joining undoes splitting. */
  lemma {:induction false} JoinSplit(s: string, sep: char)
    ensures Join(Split(s, sep), sep) == s
  {
    if s != [] {
      var rest := Split(s[1..], sep);
      JoinSplit(s[1..], sep);
      if s[0] == sep {
        assert Join([""] + rest, sep) == "" + [sep] + Join(rest, sep);
      } else if |rest| == 1 {
        assert Split(s, sep) == [[s[0]] + rest[0]];
      } else {
        assert Split(s, sep)[1..] == rest[1..];
      }
    }
  }

  /** A longer path has the joined text of any of its proper prefixes as a proper prefix. */
  lemma {:induction false} JoinPrefix(p: seq<string>, q: seq<string>, sep: char)
    requires p < q && p != []
    ensures Join(p, sep) + [sep] <= Join(q, sep)
  {
    if |p| == 1 {
      assert Join(q, sep) == (p[0] + [sep]) + Join(q[1..], sep);
    } else {
      JoinPrefix(p[1..], q[1..], sep);
      assert p[0] + [sep] + Join(p[1..], sep) + [sep] == p[0] + [sep] + (Join(p[1..], sep) + [sep]);
    }
  }

  lemma SeparatorInside(a: string, x: string, b: string, y: string, sep: char)
    requires |a| < |b| && a + [sep] + x == b + [sep] + y
    ensures sep in b && sep in x
  {
    assert (a + [sep] + x)[|a|] == sep && (b + [sep] + y)[|a|] == b[|a|];
    assert (b + [sep] + y)[|b|] == sep && (a + [sep] + x)[|b|] == x[|b| - |a| - 1];
  }

  /** A text is cut at its first, and at its last, separator in one way only. */
  lemma OneSeparator(a: string, x: string, b: string, y: string, sep: char)
    requires a + [sep] + x == b + [sep] + y
    requires (sep !in a && sep !in b) || (sep !in x && sep !in y)
    ensures a == b && x == y
  {
    var s, t := a + [sep] + x, b + [sep] + y;
    assert !(|a| < |b|) by { if |a| < |b| { SeparatorInside(a, x, b, y, sep); } }
    assert !(|b| < |a|) by { if |b| < |a| { SeparatorInside(b, y, a, x, sep); } }
    assert s[..|a|] == a && t[..|b|] == b;
    assert s[|a| + 1..] == x && t[|b| + 1..] == y;
  }

  /** The order of Go strings: characters left to right, a proper prefix first. */
  predicate LessEq(a: string, b: string) {
    if a == [] then true
    else if b == [] then false
    else if a[0] != b[0] then a[0] < b[0]
    else LessEq(a[1..], b[1..])
  }

  lemma {:induction false} LessEqTotal(a: string, b: string)
    ensures LessEq(a, b) || LessEq(b, a)
    ensures LessEq(a, b) && LessEq(b, a) ==> a == b
  {
    if a != [] && b != [] && a[0] == b[0] {
      LessEqTotal(a[1..], b[1..]);
      assert a == [a[0]] + a[1..] && b == [b[0]] + b[1..];
    }
  }

  lemma {:induction false} LessEqTransitive(a: string, b: string, c: string)
    requires LessEq(a, b) && LessEq(b, c)
    ensures LessEq(a, c)
  {
    if a != [] && b != [] && c != [] && a[0] == b[0] == c[0] {
      LessEqTransitive(a[1..], b[1..], c[1..]);
    }
  }

  lemma {:induction false} PrefixLessEq(a: string, b: string)
    requires a <= b
    ensures LessEq(a, b)
  {
    if a != [] { PrefixLessEq(a[1..], b[1..]); }
  }
}

/** sort.Slice: some permutation of the input in the given order. */
module Sorting {

  ghost predicate TotalPreorder<T(!new)>(leq: (T, T) -> bool) {
    && (forall a, b :: leq(a, b) || leq(b, a))
    && (forall a, b, c :: leq(a, b) && leq(b, c) ==> leq(a, c))
  }

  ghost predicate SortedBy<T>(xs: seq<T>, leq: (T, T) -> bool) {
    forall i, j :: 0 <= i < j < |xs| ==> leq(xs[i], xs[j])
  }

  lemma {:induction false} DistinctCounts<T>(xs: seq<T>)
    requires forall i, j :: 0 <= i < j < |xs| ==> xs[i] != xs[j]
    ensures forall x :: multiset(xs)[x] <= 1
  {
    if xs != [] {
      var rest := xs[..|xs| - 1];
      DistinctCounts(rest);
      assert xs == rest + [xs[|xs| - 1]];
      assert xs[|xs| - 1] !in rest;
    }
  }

  lemma CountsDistinct<T>(xs: seq<T>, i: nat, j: nat)
    requires i < j < |xs| && forall x :: multiset(xs)[x] <= 1
    ensures xs[i] != xs[j]
  {
    assert xs == xs[..j] + xs[j..];
    assert xs[i] in xs[..j] && xs[j] in xs[j..];
    assert multiset(xs)[xs[j]] == multiset(xs[..j])[xs[j]] + multiset(xs[j..])[xs[j]];
  }

  lemma SameElements<T>(xs: seq<T>, ys: seq<T>)
    requires multiset(xs) == multiset(ys)
    ensures forall x :: x in xs <==> x in ys
  {
    forall x ensures x in xs <==> x in ys {
      assert x in xs <==> x in multiset(xs);
      assert x in ys <==> x in multiset(ys);
    }
  }

  lemma InsertKeepsSorted<T(!new)>(xs: seq<T>, i: nat, x: T, leq: (T, T) -> bool)
    requires TotalPreorder(leq) && SortedBy(xs, leq) && i <= |xs|
    requires forall k :: 0 <= k < i ==> leq(xs[k], x)
    requires i < |xs| ==> leq(x, xs[i])
    ensures SortedBy(xs[..i] + [x] + xs[i..], leq)
  {
    var ys := xs[..i] + [x] + xs[i..];
    forall a, b | 0 <= a < b < |ys| ensures leq(ys[a], ys[b]) {
      if a == i {
        assert ys[b] == xs[b - 1] && (b - 1 == i || leq(xs[i], xs[b - 1]));
      } else if b == i {
        assert ys[a] == xs[a];
      } else {
        assert ys[a] == xs[if a < i then a else a - 1] && ys[b] == xs[if b < i then b else b - 1];
      }
    }
  }

  method InsertSorted<T(!new)>(xs: seq<T>, x: T, leq: (T, T) -> bool) returns (ys: seq<T>)
    requires TotalPreorder(leq) && SortedBy(xs, leq)
    ensures SortedBy(ys, leq) && multiset(ys) == multiset(xs) + multiset{x}
  {
    var i := 0;
    while i < |xs| && leq(xs[i], x)
      invariant 0 <= i <= |xs|
      invariant forall k :: 0 <= k < i ==> leq(xs[k], x)
    {
      i := i + 1;
    }
    InsertKeepsSorted(xs, i, x, leq);
    ys := xs[..i] + [x] + xs[i..];
    assert xs == xs[..i] + xs[i..];
  }

  method Sort<T(!new)>(xs: seq<T>, leq: (T, T) -> bool) returns (ys: seq<T>)
    requires TotalPreorder(leq)
    ensures SortedBy(ys, leq) && multiset(ys) == multiset(xs)
  {
    ys := [];
    for i := 0 to |xs|
      invariant SortedBy(ys, leq) && multiset(ys) == multiset(xs[..i])
    {
      assert xs[..i + 1] == xs[..i] + [xs[i]];
      ys := InsertSorted(ys, xs[i], leq);
    }
    assert xs[..|xs|] == xs;
  }

  // ---------------------------------------------------------------- sizes of sets

  lemma {:induction false} SubsetIsSmaller<T>(a: set<T>, b: set<T>)
    requires a <= b
    ensures |a| <= |b|
  {
    if x :| x in a {
      SubsetIsSmaller(a - {x}, b - {x});
    } else {
      assert a == {};
    }
  }

  /** A subset of the same size is the whole set. */
  lemma WholeSet<T>(a: set<T>, b: set<T>)
    requires a <= b && |a| == |b|
    ensures a == b
  {
    forall x | x in b ensures x in a {
      if x !in a { SubsetIsSmaller(a, b - {x}); }
    }
  }
}
