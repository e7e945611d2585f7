/** internal/agentfix: compare a staging tree with the target, apply the difference with
    backups kept inside the target itself, and undo it from the manifest. Content stands
    for its own hash. */
module AgentFix {
  import opened Wrappers
  import opened FileTree
  import opened Text
  import opened Sorting

  // ---------------------------------------------------------------- what is compared

  datatype Matcher = Matcher(names: set<string>, prefixes: seq<string>)

  function Cleaned(s: string): string {
    TrimSlashes(Slashed(s))
  }

  /** newExcludeMatcher: the four built-in names, and each extra value as a name or, when it has a
      slash inside, as a prefix. */
  method NewExcludeMatcher(extra: seq<string>) returns (m: Matcher)
    ensures forall name :: name in m.names <==>
              name in {".git", BACKUPS, "node_modules", "vendor"}
              || (name != "" && '/' !in name && exists i :: 0 <= i < |extra| && Cleaned(extra[i]) == name)
    ensures forall p :: p in m.prefixes <==> '/' in p && exists i :: 0 <= i < |extra| && Cleaned(extra[i]) == p
  {
    m := Matcher({".git", BACKUPS, "node_modules", "vendor"}, []);
    for i := 0 to |extra|
      invariant forall name :: name in m.names <==>
                  name in {".git", BACKUPS, "node_modules", "vendor"}
                  || (name != "" && '/' !in name && Given(extra[..i], name))
      invariant forall p :: p in m.prefixes <==> '/' in p && Given(extra[..i], p)
    {
      GivenOn(extra, i);
      m := With(m, Cleaned(extra[i]));
    }
    assert extra[..|extra|] == extra;
  }

  ghost predicate Given(extra: seq<string>, value: string) {
    exists i :: 0 <= i < |extra| && Cleaned(extra[i]) == value
  }

  lemma GivenOn(extra: seq<string>, i: nat)
    requires i < |extra|
    ensures forall value :: Given(extra[..i + 1], value) <==> Given(extra[..i], value) || Cleaned(extra[i]) == value
  {
    forall value ensures Given(extra[..i + 1], value) <==> Given(extra[..i], value) || Cleaned(extra[i]) == value {
      assert extra[..i + 1][i] == extra[i] && extra[..i + 1][..i] == extra[..i];
      if Given(extra[..i], value) {
        var k :| 0 <= k < i && Cleaned(extra[..i][k]) == value;
        assert extra[..i + 1][k] == extra[..i][k];
      }
      if Given(extra[..i + 1], value) && Cleaned(extra[i]) != value {
        var k :| 0 <= k < i + 1 && Cleaned(extra[..i + 1][k]) == value;
        assert extra[..i][k] == extra[..i + 1][k];
      }
    }
  }

  function With(m: Matcher, value: string): (r: Matcher)
    ensures forall name :: name in r.names <==> name in m.names || (name == value && name != "" && '/' !in name)
    ensures forall p :: p in r.prefixes <==> p in m.prefixes || (p == value && '/' in p)
  {
    if value == "" then m
    else if '/' in value then m.(prefixes := m.prefixes + [value])
    else m.(names := m.names + {value})
  }

  function Slashed(s: string): string {
    seq(|s|, i requires 0 <= i < |s| => if s[i] == '\\' then '/' else s[i])
  }

  function TrimSlashes(s: string): string {
    if s != "" && s[0] == '/' then TrimSlashes(s[1..])
    else if s != "" && s[|s| - 1] == '/' then TrimSlashes(s[..|s| - 1])
    else s
  }

  predicate Named(m: Matcher, parts: seq<string>) {
    exists i :: 0 <= i < |parts| && parts[i] in m.names
  }

  predicate Prefixed(m: Matcher, rel: string) {
    exists k :: 0 <= k < |m.prefixes| && (rel == m.prefixes[k] || m.prefixes[k] + "/" <= rel)
  }

  /** excludeMatcher.skip on a cleaned text. */
  predicate SkipText(m: Matcher, rel: string) {
    rel != "" && rel != "." && (Named(m, Split(rel, '/')) || Prefixed(m, rel))
  }

  /** The same on a path relative to the walked root: a backslash in a name counts as a slash. */
  predicate Skip(m: Matcher, rel: Path) {
    rel != [] && SkipText(m, Cleaned(Join(rel, '/')))
  }

  /** Without a leading slash only slashes at the end are trimmed. */
  lemma {:induction false} TrimmedRight(s: string)
    requires s != "" && s[0] != '/'
    ensures var a := TrimSlashes(s);
            a != "" && a <= s && a[|a| - 1] != '/' && forall i :: |a| <= i < |s| ==> s[i] == '/'
  {
    if s[|s| - 1] == '/' { TrimmedRight(s[..|s| - 1]); }
  }

  lemma {:induction false} TrimBelow(s: string, rest: string)
    requires TrimSlashes(s) != ""
    ensures var a, b := TrimSlashes(s), TrimSlashes(s + "/" + rest); a == b || a + "/" <= b
  {
    var t := s + "/" + rest;
    if s[0] == '/' {
      assert t[1..] == s[1..] + "/" + rest;
      TrimBelow(s[1..], rest);
    } else {
      TrimmedRight(s);
      TrimmedRight(t);
      var a, b := TrimSlashes(s), TrimSlashes(t);
      assert t[|a| - 1] == a[|a| - 1] && t[|a|] == '/';
      if |b| > |a| { assert b[|a|] == '/'; }
    }
  }

  lemma SkipTextBelow(m: Matcher, a: string, b: string)
    requires SkipText(m, a) && (a == b || a + "/" <= b)
    ensures SkipText(m, b)
  {
    if a != b {
      assert b == a + ['/'] + b[|a| + 1..];
      SplitAppend(a, b[|a| + 1..], b, '/');
      if Named(m, Split(a, '/')) {
        var i :| 0 <= i < |Split(a, '/')| && Split(a, '/')[i] in m.names;
        assert Split(b, '/')[i] in m.names;
      } else {
        var k :| 0 <= k < |m.prefixes| && (a == m.prefixes[k] || m.prefixes[k] + "/" <= a);
        assert m.prefixes[k] + "/" <= b;
      }
    }
  }

  /** What is below a skipped directory is skipped too, so pruning the walk loses nothing. */
  lemma SkipIsInherited(m: Matcher, p: Path, q: Path)
    requires Skip(m, p) && AtOrAbove(p, q)
    ensures Skip(m, q)
  {
    if p != q {
      JoinPrefix(p, q, '/');
      var s, t := Join(p, '/'), Join(q, '/');
      assert t == s + "/" + t[|s| + 1..];
      assert Slashed(t) == Slashed(s) + "/" + Slashed(t[|s| + 1..]);
      TrimBelow(Slashed(s), Slashed(t[|s| + 1..]));
      SkipTextBelow(m, Cleaned(s), Cleaned(t));
    }
  }

  predicate OrdinaryName(s: string) {
    s != "" && '/' !in s && '\\' !in s
  }

  lemma {:induction false} JoinOrdinary(p: Path)
    requires p != [] && forall i :: 0 <= i < |p| ==> OrdinaryName(p[i])
    ensures var s := Join(p, '/'); s != "" && s[0] != '/' && s[|s| - 1] != '/' && '\\' !in s
  {
    if |p| > 1 {
      JoinOrdinary(p[1..]);
      var s, rest := Join(p, '/'), Join(p[1..], '/');
      assert s == p[0] + ['/'] + rest && s[|s| - 1] == rest[|rest| - 1];
    }
  }

  lemma SlashedOrdinary(s: string)
    requires '\\' !in s
    ensures Slashed(s) == s
  {
  }

  lemma OrdinaryText(p: Path)
    requires p != [] && p != ["."] && forall i :: 0 <= i < |p| ==> OrdinaryName(p[i])
    ensures Join(p, '/') != "" && Join(p, '/') != "."
    ensures Cleaned(Join(p, '/')) == Join(p, '/')
    ensures Split(Join(p, '/'), '/') == p
  {
    JoinOrdinary(p);
    SlashedOrdinary(Join(p, '/'));
    SplitJoin(p, '/');
    if Join(p, '/') == "." { SplitHead(".", "", '/'); }
  }

  lemma BelowInText(a: string, b: string)
    requires a + "/" <= b
    ensures Split(a, '/') <= Split(b, '/')
  {
    var rest := b[|a| + 1..];
    assert b == a + ['/'] + rest;
    SplitAppend(a, rest, b, '/');
  }

  /** An excluded prefix covers the path of the same segments and all below it. */
  lemma PrefixCovers(prefix: string, p: Path)
    requires p != [] && forall i :: 0 <= i < |p| ==> '/' !in p[i]
    ensures prefix == Join(p, '/') || prefix + "/" <= Join(p, '/') <==> AtOrAbove(Split(prefix, '/'), p)
  {
    SplitJoin(p, '/');
    if AtOrAbove(Split(prefix, '/'), p) {
      JoinSplit(prefix, '/');
      if Split(prefix, '/') != p { JoinPrefix(Split(prefix, '/'), p, '/'); }
    } else if prefix + "/" <= Join(p, '/') {
      BelowInText(prefix, Join(p, '/'));
    }
  }

  /** On names without slashes and backslashes: a path is excluded when one of its segments is an excluded
      name, or when it lies at or below an excluded prefix. */
  lemma SkipOrdinary(m: Matcher, p: Path)
    requires p != [] && p != ["."] && forall i :: 0 <= i < |p| ==> OrdinaryName(p[i])
    ensures Skip(m, p) <==>
              || (exists i :: 0 <= i < |p| && p[i] in m.names)
              || (exists prefix :: prefix in m.prefixes && AtOrAbove(Split(prefix, '/'), p))
  {
    OrdinaryText(p);
    forall prefix | prefix in m.prefixes
      ensures prefix == Join(p, '/') || prefix + "/" <= Join(p, '/') <==> AtOrAbove(Split(prefix, '/'), p)
    {
      PrefixCovers(prefix, p);
    }
    if prefix :| prefix in m.prefixes && AtOrAbove(Split(prefix, '/'), p) {
      var k :| 0 <= k < |m.prefixes| && m.prefixes[k] == prefix;
      assert Prefixed(m, Join(p, '/'));
    }
  }

  /** A backslash in a name counts as a slash. */
  lemma BackslashCounts(m: Matcher, a: string, b: string)
    requires OrdinaryName(a) && OrdinaryName(b)
    ensures Skip(m, [a + "\\" + b]) <==> Skip(m, [a, b])
  {
    assert Join([a, b], '/') == a + "/" + b by { assert [a, b][1..] == [b]; }
    assert Join([a + "\\" + b], '/') == a + "\\" + b;
    assert Slashed(a + "\\" + b) == a + "/" + b && Slashed(a + "/" + b) == a + "/" + b;
  }

  /** The engine's own directory is never compared. */
  lemma BackupsSkipped(m: Matcher, p: Path)
    requires BACKUPS in m.names && p != [] && p[0] == BACKUPS
    ensures Skip(m, p)
  {
    SkipOrdinary(m, [BACKUPS]);
    assert [BACKUPS][0] in m.names;
    SkipIsInherited(m, [BACKUPS], p);
  }

  function Snapshot(t: Tree, m: Matcher): map<Path, string> {
    map p | p in t && t[p].File? && !Skip(m, p) :: t[p].content
  }

  predicate Child(dir: Path, p: Path) {
    p != [] && Parent(p) == dir
  }

  /** The files below dir that are reached through one of the given children of dir. */
  function Reached(t: Tree, dir: Path, m: Matcher, through: set<Path>): map<Path, string> {
    map p | p in t && Above(dir, p) && p[..|dir| + 1] in through && t[p].File? && !Skip(m, p) :: t[p].content
  }

  lemma ThroughEntry(t: Tree, dir: Path, m: Matcher, entry: Path, p: Path)
    requires Closed(t) && entry in t && Child(dir, entry) && p in t
    ensures Above(dir, p) && p[..|dir| + 1] == entry <==> p == entry || Above(entry, p)
    ensures Above(entry, p) ==> t[entry].Dir?
    ensures (p == entry || Above(entry, p)) && Skip(m, entry) ==> Skip(m, p)
  {
    if Above(entry, p) { AncestorIsDir(t, p, entry); }
    if (p == entry || Above(entry, p)) && Skip(m, entry) { SkipIsInherited(m, entry, p); }
  }

  function Through(t: Tree, m: Matcher, entry: Path): map<Path, string>
    requires entry in t
  {
    if Skip(m, entry) then map[]
    else if t[entry].Dir? then map p | p in t && Above(entry, p) && t[p].File? && !Skip(m, p) :: t[p].content
    else map[entry := t[entry].content]
  }

  lemma ReachedStep(t: Tree, dir: Path, m: Matcher, done: set<Path>, entry: Path)
    requires Closed(t) && entry in t && Child(dir, entry)
    ensures Reached(t, dir, m, done + {entry}) == Reached(t, dir, m, done) + Through(t, m, entry)
  {
    var want, got := Reached(t, dir, m, done + {entry}), Reached(t, dir, m, done) + Through(t, m, entry);
    forall p
      ensures (p in want <==> p in got) && (p in want ==> want[p] == got[p])
    {
      if p in t { ThroughEntry(t, dir, m, entry, p); }
    }
    assert want.Keys == got.Keys;
  }

  lemma ReachedAll(t: Tree, dir: Path, m: Matcher)
    requires Closed(t)
    ensures Reached(t, dir, m, set p | p in t && Child(dir, p))
         == map p | p in t && Above(dir, p) && t[p].File? && !Skip(m, p) :: t[p].content
  {
    forall p | p in t && Above(dir, p)
      ensures p[..|dir| + 1] in t && Child(dir, p[..|dir| + 1])
    {
      var entry := p[..|dir| + 1];
      if entry != p { assert Above(entry, p); AncestorIsDir(t, p, entry); }
    }
  }

  lemma Narrower(t: Tree, dir: Path, entry: Path)
    requires entry in t && DirAt(t, dir) && Child(dir, entry)
    ensures (set p | p in t && AtOrAbove(entry, p)) < (set p | p in t && AtOrAbove(dir, p))
  {
    var below, all := set p | p in t && AtOrAbove(entry, p), set p | p in t && AtOrAbove(dir, p);
    assert dir in all && dir !in below && below <= all;
  }

  /** filepath.WalkDir as snapshotDir drives it: a skipped directory is not entered. */
  method Walk(t: Tree, dir: Path, m: Matcher) returns (files: map<Path, string>)
    requires Closed(t) && DirAt(t, dir)
    ensures files == map p | p in t && Above(dir, p) && t[p].File? && !Skip(m, p) :: t[p].content
    decreases set p | p in t && AtOrAbove(dir, p)
  {
    files := map[];
    var todo := set p | p in t && Child(dir, p);
    ghost var children, done: set<Path> := todo, {};
    while todo != {}
      invariant done + todo == children && todo <= children
      invariant files == Reached(t, dir, m, done)
      decreases todo
    {
      var entry :| entry in todo;
      assert entry in children;
      ReachedStep(t, dir, m, done, entry);
      if Skip(m, entry) {
      } else if t[entry].Dir? {
        Narrower(t, dir, entry);
        var inner := Walk(t, entry, m);
        files := files + inner;
      } else {
        files := files[entry := t[entry].content];
      }
      done, todo := done + {entry}, todo - {entry};
    }
    ReachedAll(t, dir, m);
  }

  /** snapshotDir records every regular file that is not excluded, and nothing else. */
  method SnapshotDir(t: Tree, m: Matcher) returns (files: map<Path, string>)
    requires Closed(t)
    ensures files == Snapshot(t, m)
  {
    files := Walk(t, [], m);
  }

  // ---------------------------------------------------------------- the difference

  datatype ChangeType = Create | Modify | Delete

  datatype Change = Change(path: Path, kind: ChangeType, size: nat)

  /** The change a path calls for, if any. */
  function ChangeFor(before: map<Path, string>, after: map<Path, string>, p: Path): Option<Change> {
    if p in before then
      if p !in after then Some(Change(p, Delete, 0))
      else if before[p] != after[p] then Some(Change(p, Modify, |after[p]|))
      else None
    else if p in after then Some(Change(p, Create, |after[p]|))
    else None
  }

  predicate PathLessEq(a: Change, b: Change) {
    LessEq(Join(a.path, '/'), Join(b.path, '/'))
  }

  ghost predicate IsDiff(before: map<Path, string>, after: map<Path, string>, changes: seq<Change>) {
    && (forall p :: ChangeFor(before, after, p).Some? ==> ChangeFor(before, after, p).value in changes)
    && (forall c :: c in changes ==> ChangeFor(before, after, c.path) == Some(c))
    && (forall i, j :: 0 <= i < j < |changes| ==> changes[i].path != changes[j].path)
    && SortedBy(changes, PathLessEq)
  }

  lemma PathOrder()
    ensures TotalPreorder(PathLessEq)
  {
    forall a, b ensures PathLessEq(a, b) || PathLessEq(b, a) {
      LessEqTotal(Join(a.path, '/'), Join(b.path, '/'));
    }
    forall a, b, c | PathLessEq(a, b) && PathLessEq(b, c) ensures PathLessEq(a, c) {
      LessEqTransitive(Join(a.path, '/'), Join(b.path, '/'), Join(c.path, '/'));
    }
  }

  lemma DistinctPaths(xs: seq<Change>, ys: seq<Change>)
    requires multiset(xs) == multiset(ys)
    requires forall i, j :: 0 <= i < j < |xs| ==> xs[i].path != xs[j].path
    ensures forall i, j :: 0 <= i < j < |ys| ==> ys[i].path != ys[j].path
    ensures forall c :: c in xs <==> c in ys
  {
    SameElements(xs, ys);
    DistinctCounts(xs);
    forall i, j | 0 <= i < j < |ys|
      ensures ys[i].path != ys[j].path
    {
      CountsDistinct(ys, i, j);
      assert ys[i] in xs && ys[j] in xs;
    }
  }

  /** detectChanges: whatever order the two maps are walked in, the result is the exact
      difference of the two snapshots, one change for each differing path. */
  method DetectChanges(before: map<Path, string>, after: map<Path, string>) returns (changes: seq<Change>)
    ensures IsDiff(before, after, changes)
  {
    var found: seq<Change> := [];
    var todo := before.Keys;
    while todo != {}
      invariant todo <= before.Keys
      invariant forall p :: p in before && p !in todo && ChangeFor(before, after, p).Some? ==>
                  ChangeFor(before, after, p).value in found
      invariant forall c :: c in found ==>
                  c.path in before && c.path !in todo && ChangeFor(before, after, c.path) == Some(c)
      invariant forall i, j :: 0 <= i < j < |found| ==> found[i].path != found[j].path
      decreases todo
    {
      var p :| p in todo;
      todo := todo - {p};
      if p !in after {
        found := found + [Change(p, Delete, 0)];
      } else if before[p] != after[p] {
        found := found + [Change(p, Modify, |after[p]|)];
      }
    }
    todo := after.Keys;
    while todo != {}
      invariant todo <= after.Keys
      invariant forall p :: (p in before || (p in after && p !in todo)) && ChangeFor(before, after, p).Some? ==>
                  ChangeFor(before, after, p).value in found
      invariant forall c :: c in found ==>
                  (c.path in before || c.path !in todo) && ChangeFor(before, after, c.path) == Some(c)
      invariant forall i, j :: 0 <= i < j < |found| ==> found[i].path != found[j].path
      decreases todo
    {
      var p :| p in todo;
      todo := todo - {p};
      if p !in before {
        found := found + [Change(p, Create, |after[p]|)];
      }
    }
    PathOrder();
    changes := Sort(found, PathLessEq);
    DistinctPaths(found, changes);
  }

  /** No difference is reported exactly when the snapshots agree. */
  lemma NoDiffIffEqual(before: map<Path, string>, after: map<Path, string>, changes: seq<Change>)
    requires IsDiff(before, after, changes)
    ensures changes == [] <==> before == after
  {
    if changes == [] {
      forall p ensures p in before <==> p in after && (p in before ==> before[p] == after[p]) {
        assert ChangeFor(before, after, p).None?;
      }
    } else {
      assert changes[0] in changes;
    }
  }
}
