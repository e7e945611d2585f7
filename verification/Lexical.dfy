/** path/filepath on Unix, as far as the engine's confinement checks use it. An absolute clean
    path is the list of its segments; a path given by a user is still a string. */
module Lexical {
  import opened Wrappers
  import opened FileTree
  import opened Text

  /** A segment that a clean path may hold, apart from leading "..". */
  predicate Normal(s: string) {
    s != "" && s != "." && s != ".." && '/' !in s
  }

  ghost predicate AllNormal(p: Path) {
    forall i :: 0 <= i < |p| ==> Normal(p[i])
  }

  function Push(stack: Path, part: string, rooted: bool): Path {
    if part == "" || part == "." then stack
    else if part == ".." then
      if stack != [] && stack[|stack| - 1] != ".." then stack[..|stack| - 1]
      else if rooted then stack
      else stack + [".."]
    else stack + [part]
  }

  /** The stack of filepath.Clean after the given parts. */
  function Reduce(parts: seq<string>, rooted: bool): Path {
    if parts == [] then []
    else Push(Reduce(parts[..|parts| - 1], rooted), parts[|parts| - 1], rooted)
  }

  function Show(p: Path): string {
    if p == [] then "." else Join(p, '/')
  }

  predicate IsAbs(raw: string) {
    raw != "" && raw[0] == '/'
  }

  /** filepath.Clean of a relative path. */
  function Clean(raw: string): string {
    Show(Reduce(Split(raw, '/'), false))
  }

  /** filepath.Join of an absolute clean root and a relative path. */
  function JoinTo(root: Path, rel: string): Path {
    Reduce(root + Split(rel, '/'), true)
  }

  function Common(a: Path, b: Path): nat {
    if a == [] || b == [] || a[0] != b[0] then 0 else 1 + Common(a[1..], b[1..])
  }

  function Ups(n: nat): Path {
    seq(n, _ => "..")
  }

  /** filepath.Rel between absolute clean paths. */
  function Rel(base: Path, target: Path): (s: string)
  {
    CommonBound(base, target);
    var k := Common(base, target);
    Show(Ups(|base| - k) + target[k..])
  }

  predicate Escapes(rel: string) {
    rel == ".." || "../" <= rel
  }

  lemma {:induction false} CommonBound(a: Path, b: Path)
    ensures Common(a, b) <= |a| && Common(a, b) <= |b|
    ensures Common(a, b) == |a| <==> a <= b
  {
    if a != [] && b != [] && a[0] == b[0] {
      CommonBound(a[1..], b[1..]);
      assert a[1..] <= b[1..] ==> a <= b by {
        assert a == [a[0]] + a[1..] && b == [b[0]] + b[1..];
      }
    }
  }

  // ---------------------------------------------------------------- the shape of clean paths

  /** Some ".." and then normal segments. */
  ghost predicate Shaped(p: Path, ups: nat) {
    && ups <= |p|
    && (forall i :: 0 <= i < ups ==> p[i] == "..")
    && (forall i :: ups <= i < |p| ==> Normal(p[i]))
  }

  lemma {:induction false} ReduceShape(parts: seq<string>, rooted: bool) returns (ups: nat)
    requires forall i :: 0 <= i < |parts| ==> '/' !in parts[i]
    ensures Shaped(Reduce(parts, rooted), ups)
    ensures rooted ==> ups == 0
  {
    if parts == [] {
      ups := 0;
    } else {
      ups := ReduceShape(parts[..|parts| - 1], rooted);
      var out, part := Reduce(parts[..|parts| - 1], rooted), parts[|parts| - 1];
      if part == ".." && (out == [] || out[|out| - 1] == "..") && !rooted { ups := ups + 1; }
    }
  }

  lemma {:induction false} ReduceNormal(base: Path, p: Path)
    requires AllNormal(base) && AllNormal(p)
    ensures Reduce(base + p, true) == base + p
    decreases |base| + |p|
  {
    if p == [] {
      if base != [] {
        assert base + p == base[..|base| - 1] + [base[|base| - 1]];
        ReduceNormal(base[..|base| - 1], []);
        assert base[..|base| - 1] + [] == base[..|base| - 1];
        assert (base + p)[..|base + p| - 1] == base[..|base| - 1];
      }
    } else {
      assert (base + p)[..|base + p| - 1] == base + p[..|p| - 1];
      ReduceNormal(base, p[..|p| - 1]);
      assert base + p == base + p[..|p| - 1] + [p[|p| - 1]];
    }
  }

  /** The textual test for an escape looks at the first segment. */
  lemma EscapesIff(p: Path, ups: nat)
    requires Shaped(p, ups)
    ensures Escapes(Show(p)) <==> ups > 0
    ensures Show(p) == "." <==> p == []
    ensures p != [] ==> Split(Show(p), '/') == p
  {
    if p != [] {
      forall i | 0 <= i < |p| ensures '/' !in p[i] {}
      SplitJoin(p, '/');
      var s := Join(p, '/');
      if s == ".." || s == "." { SplitHead(s, "", '/'); assert p == [s]; }
      if "../" <= s {
        assert s == ".." + ['/'] + s[3..];
        SplitHead("..", s[3..], '/');
      }
      if ups > 0 && |p| > 1 { assert s == (".." + ['/']) + Join(p[1..], '/'); }
    }
  }

  // ---------------------------------------------------------------- resolveSafe and joinInsideApp

  /** internal/remediation/rollbackmanifest: resolveSafe. */
  function ResolveSafe(root: Path, raw: string): Option<Path> {
    if Blank(raw) || IsAbs(raw) then None
    else
      var clean := Clean(raw);
      if clean == "." || Escapes(clean) then None
      else
        var target := JoinTo(root, clean);
        if Escapes(Rel(root, target)) then None else Some(target)
  }

  /** internal/readinessresolve: joinInsideApp without the symbolic-link check. */
  function JoinInside(root: Path, raw: string): Option<Path> {
    if IsAbs(raw) then None
    else
      var candidate := JoinTo(root, Clean(raw));
      if Escapes(Rel(root, candidate)) then None else Some(candidate)
  }

  lemma RelEscapesIff(root: Path, target: Path)
    requires AllNormal(target)
    ensures Escapes(Rel(root, target)) <==> !(root <= target)
    ensures root <= target ==> Rel(root, target) == Show(target[|root|..])
  {
    CommonBound(root, target);
    var k := Common(root, target);
    var rel := Ups(|root| - k) + target[k..];
    assert Shaped(rel, |root| - k);
    EscapesIff(rel, |root| - k);
    if root <= target { assert rel == target[|root|..]; }
  }

  lemma JoinToNormal(root: Path, rel: string)
    requires AllNormal(root)
    ensures AllNormal(JoinTo(root, rel))
  {
    var ups := ReduceShape(root + Split(rel, '/'), true);
  }

  /** A path is accepted exactly when it is relative, not blank, and its clean form is neither
      "." nor starts with ".."; the target is then the root followed by that form, strictly
      below the root, and computing it back gives the clean input again, so that the second
      check of the code never fires. */
  lemma ResolveSafeSpec(root: Path, raw: string)
    requires AllNormal(root)
    ensures ResolveSafe(root, raw).Some? <==> !Blank(raw) && !IsAbs(raw) && Clean(raw) != "." && !Escapes(Clean(raw))
    ensures ResolveSafe(root, raw).Some? ==>
              var target := ResolveSafe(root, raw).value;
              AllNormal(target) && Above(root, target) && Rel(root, target) == Clean(raw)
  {
    var out := Reduce(Split(raw, '/'), false);
    var ups := ReduceShape(Split(raw, '/'), false);
    EscapesIff(out, ups);
    if Clean(raw) != "." && !Escapes(Clean(raw)) {
      ReduceNormal(root, out);
      assert JoinTo(root, Clean(raw)) == root + out;
      RelEscapesIff(root, root + out);
      assert (root + out)[|root|..] == out;
    }
  }

  /** joinInsideApp accepts exactly the relative paths that end up at or below the root, even by
      leaving it and coming back; everything resolveSafe accepts is accepted with the same target. */
  lemma JoinInsideSpec(root: Path, raw: string)
    requires AllNormal(root)
    ensures JoinInside(root, raw).Some? <==> !IsAbs(raw) && AtOrAbove(root, JoinTo(root, Clean(raw)))
    ensures ResolveSafe(root, raw).Some? ==> JoinInside(root, raw) == ResolveSafe(root, raw)
  {
    JoinToNormal(root, Clean(raw));
    RelEscapesIff(root, JoinTo(root, Clean(raw)));
    ResolveSafeSpec(root, raw);
  }

  lemma ReduceSnoc(init: seq<string>, part: string, all: seq<string>, rooted: bool)
    requires all == init + [part]
    ensures Reduce(all, rooted) == Push(Reduce(init, rooted), part, rooted)
  {
    assert all[..|all| - 1] == init;
  }

  lemma CleanLeaving()
    ensures Split("../a/f", '/') == ["..", "a", "f"] && Clean("../a/f") == "../a/f"
  {
    var parts := ["..", "a", "f"];
    SplitJoin(parts, '/');
    assert Join(["a", "f"], '/') == "a/f" by { assert ["a", "f"][1..] == ["f"]; }
    assert Join(parts, '/') == "../a/f" by { assert parts[1..] == ["a", "f"]; }
    ReduceSnoc([], "..", [".."], false);
    ReduceSnoc([".."], "a", ["..", "a"], false);
    ReduceSnoc(["..", "a"], "f", parts, false);
  }

  lemma JoinLeaving()
    ensures JoinTo(["a"], "../a/f") == ["a", "f"]
  {
    CleanLeaving();
    ReduceSnoc([], "a", ["a"], true);
    ReduceSnoc(["a"], "..", ["a", ".."], true);
    ReduceSnoc(["a", ".."], "a", ["a", "..", "a"], true);
    ReduceSnoc(["a", "..", "a"], "f", ["a", "..", "a", "f"], true);
    assert ["a"] + ["..", "a", "f"] == ["a", "..", "a", "f"];
  }

  /** The two checks differ: a path that leaves the root and returns passes only one of them. */
  lemma LeavingAndReturning()
    ensures JoinInside(["a"], "../a/f") == Some(["a", "f"]) && ResolveSafe(["a"], "../a/f") == None
  {
    CleanLeaving();
    JoinLeaving();
    JoinInsideSpec(["a"], "../a/f");
  }

  // ---------------------------------------------------------------- resolveRequestedPath

  /** internal/runtime/resources: the path relative to the root that a request names. */
  function ResolveRequested(root: Path, raw: string): Option<string> {
    if Blank(raw) || ".." in Split(raw, '/') then None
    else
      var candidate := if IsAbs(raw) then Reduce(Split(raw, '/'), true) else JoinTo(root, Clean(raw));
      var rel := Rel(root, candidate);
      if Escapes(rel) || rel == "." then None else Some(rel)
  }

  /** What a path without ".." names: its segments apart from the empty ones and ".". */
  function Plain(parts: seq<string>): Path {
    if parts == [] then []
    else Plain(parts[..|parts| - 1]) + if parts[|parts| - 1] in {"", "."} then [] else [parts[|parts| - 1]]
  }

  lemma {:induction false} ReduceWithoutUps(parts: seq<string>, rooted: bool)
    requires ".." !in parts
    ensures Reduce(parts, rooted) == Plain(parts)
  {
    if parts != [] {
      ReduceWithoutUps(parts[..|parts| - 1], rooted);
      assert parts[|parts| - 1] in parts;
    }
  }

  lemma {:induction false} PlainConcat(a: seq<string>, b: seq<string>)
    ensures Plain(a + b) == Plain(a) + Plain(b)
  {
    if b == [] {
      assert a + b == a;
    } else {
      assert (a + b)[..|a + b| - 1] == a + b[..|b| - 1];
      PlainConcat(a, b[..|b| - 1]);
    }
  }

  lemma {:induction false} PlainNormal(p: Path)
    requires AllNormal(p)
    ensures Plain(p) == p && ".." !in p
  {
    if p != [] { PlainNormal(p[..|p| - 1]); }
  }

  /** Where a relative path without ".." leads. */
  lemma JoinPlain(root: Path, raw: string)
    requires AllNormal(root) && ".." !in Split(raw, '/')
    ensures JoinTo(root, Clean(raw)) == root + Plain(Split(raw, '/'))
  {
    var p := Plain(Split(raw, '/'));
    ReduceWithoutUps(Split(raw, '/'), false);
    ReduceWithoutUps(Split(raw, '/'), true);
    var ups := ReduceShape(Split(raw, '/'), true);
    EscapesIff(p, 0);
    if p == [] {
      SplitHead(".", "", '/');
      ReduceSnoc(root, ".", root + ["."], true);
      ReduceNormal(root, []);
      assert root + [] == root;
    } else {
      ReduceNormal(root, p);
    }
  }

  /** A request is accepted exactly when it is not blank, has no ".." segment, and the path it names,
      below the root when it is relative, lies strictly below the root. The answer is the rest of
      that path, written without empty and "." segments. */
  lemma ResolveRequestedSpec(root: Path, raw: string)
    requires AllNormal(root)
    ensures var parts := Split(raw, '/');
            var named := if IsAbs(raw) then Plain(parts) else root + Plain(parts);
            && (ResolveRequested(root, raw).Some? <==> !Blank(raw) && ".." !in parts && Above(root, named))
            && (ResolveRequested(root, raw).Some? ==>
                  Split(ResolveRequested(root, raw).value, '/') == named[|root|..] && AllNormal(named))
  {
    var parts := Split(raw, '/');
    if ".." !in parts {
      var named := if IsAbs(raw) then Plain(parts) else root + Plain(parts);
      ReduceWithoutUps(parts, true);
      var ups := ReduceShape(parts, true);
      JoinPlain(root, raw);
      RelEscapesIff(root, named);
      if root <= named { EscapesIff(named[|root|..], 0); }
    }
  }
}

/** internal/remediation/rollbackmanifest: replaying typed entries backwards below a root. */
module RollbackManifest {
  import opened Wrappers
  import opened FileTree
  import opened Steps
  import opened Lexical
  import opened Text

  datatype Action = RestoreFile | RemoveCreatedPath | ChmodPath | Unknown

  datatype Entry = Entry(action: Action, path: string, backupPath: string, mode: string)

  datatype Step = Step(action: Action, path: Path)

  /** strconv.ParseUint(s, 8, 32) on digits. */
  function ParseOctal(s: string): Option<nat> {
    if s == "" then Some(0)
    else
      var high, d := ParseOctal(s[..|s| - 1]), s[|s| - 1];
      if high.Some? && '0' <= d <= '7' && 8 * high.value + (d as int - '0' as int) < 0x1_0000_0000
      then Some(8 * high.value + (d as int - '0' as int))
      else None
  }

  /** parseMode: one leading zero is dropped, so "0" alone is refused. */
  function ParseMode(value: string): Option<nat> {
    var trimmed := Trim(value);
    var digits := if trimmed != "" && trimmed[0] == '0' then trimmed[1..] else trimmed;
    if digits == "" then None else ParseOctal(digits)
  }

  function OctalText(n: nat): (s: string)
    ensures s != "" && (n > 0 ==> s[0] != '0') && forall c :: c in s ==> '0' <= c <= '7'
  {
    var d := n % 8;
    (if n < 8 then "" else OctalText(n / 8)) + ['0' + d as char]
  }

  /** What is read has octal digits only and fits in 32 bits. */
  lemma {:induction false} OctalDigits(s: string)
    ensures ParseOctal(s).Some? ==> (forall c :: c in s ==> '0' <= c <= '7') && ParseOctal(s).value < 0x1_0000_0000
  {
    if s != "" {
      OctalDigits(s[..|s| - 1]);
      assert s == s[..|s| - 1] + [s[|s| - 1]];
    }
  }

  lemma {:induction false} ParseOctalText(n: nat)
    requires n < 0x1_0000_0000
    ensures ParseOctal(OctalText(n)) == Some(n)
  {
    var s := OctalText(n);
    assert s[..|s| - 1] == if n < 8 then "" else OctalText(n / 8);
    assert s[|s| - 1] as int - '0' as int == n % 8;
    if n >= 8 { ParseOctalText(n / 8); }
  }

  lemma TrimDigits(s: string)
    requires s != "" && forall c :: c in s ==> '0' <= c <= '7'
    ensures Trim(s) == s
  {
    assert s[0] in s && s[|s| - 1] in s;
  }

  /** A mode written in octal is read back, with a leading zero or, unless it is 0, without. */
  lemma ModeReadBack(n: nat)
    requires n < 0x1_0000_0000
    ensures ParseMode("0" + OctalText(n)) == Some(n)
    ensures ParseMode(OctalText(n)) == if n == 0 then None else Some(n)
  {
    var s := OctalText(n);
    ParseOctalText(n);
    TrimDigits(s);
    TrimDigits("0" + s);
    assert ("0" + s)[1..] == s;
    if n == 0 { assert s == "0"; }
  }

  function RestoreFileAt(t: Tree, source: Path, target: Path): Outcome {
    if target == [] then Outcome(false, t) else
    var made := MkdirAll(t, Parent(target), MODE_0755);
    if !made.ok || source !in made.tree then Outcome(false, made.tree)
    else if made.tree[source].Dir? then Outcome(false, WriteFile(made.tree, target, "", MODE_0600).tree)
    else WriteFile(made.tree, target, if source == target then "" else made.tree[source].content, MODE_0600)
  }

  function SetMode(t: Tree, target: Path, mode: string): Outcome {
    var parsed := ParseMode(mode);
    if parsed.None? then Outcome(false, t) else Chmod(t, target, Perm(parsed.value))
  }

  /** executeEntry. */
  function ExecuteEntry(t: Tree, root: Path, target: Path, e: Entry): Outcome {
    match e.action
    case RestoreFile =>
      var backup := ResolveSafe(root, e.backupPath);
      if backup.None? then Outcome(false, t)
      else
        var restored := RestoreFileAt(t, backup.value, target);
        if restored.ok && e.mode != "" then SetMode(restored.tree, target, e.mode) else restored
    case RemoveCreatedPath =>
      Outcome(forall k | 0 <= k < |target| :: FileAt(t, target[..k]).None?, RemoveAll(t, target))
    case ChmodPath => SetMode(t, target, e.mode)
    case Unknown => Outcome(false, t)
  }

  /** t2 differs from t only at or below root, which is still a directory. */
  ghost predicate Inside(root: Path, t: Tree, t2: Tree) {
    Closed(t2) && DirAt(t2, root) && AgreeOutside(root, t, t2)
  }

  lemma InsideTwice(root: Path, t: Tree, t1: Tree, t2: Tree)
    requires Inside(root, t, t1) && Inside(root, t1, t2)
    ensures Inside(root, t, t2)
  {
  }

  lemma MkdirInside(t: Tree, root: Path, dir: Path)
    requires Closed(t) && DirAt(t, root) && AtOrAbove(root, dir)
    ensures Inside(root, t, MkdirAll(t, dir, MODE_0755).tree)
  {
    MkdirAllSpec(t, dir, MODE_0755);
    forall q | AtOrAbove(q, dir) && !AtOrAbove(root, q) ensures q in t {
      assert Above(q, root);
      AncestorIsDir(t, root, q);
    }
  }

  lemma WriteInside(t: Tree, root: Path, target: Path, content: string)
    requires Closed(t) && DirAt(t, root) && Above(root, target)
    ensures Inside(root, t, WriteFile(t, target, content, MODE_0600).tree)
  {
  }

  lemma RestoreWrites(t: Tree, source: Path, target: Path, made: Tree)
    requires target != [] && made == MkdirAll(t, Parent(target), MODE_0755).tree
    ensures var content := if source in made && made[source].File? && source != target then made[source].content
              else "";
            RestoreFileAt(t, source, target).tree in {made, WriteFile(made, target, content, MODE_0600).tree}
  {
  }

  lemma RestoreInside(t: Tree, root: Path, source: Path, target: Path)
    requires Closed(t) && DirAt(t, root) && Above(root, target)
    ensures Inside(root, t, RestoreFileAt(t, source, target).tree)
  {
    MkdirInside(t, root, Parent(target));
    var made := MkdirAll(t, Parent(target), MODE_0755).tree;
    RestoreWrites(t, source, target, made);
    var content := if source in made && made[source].File? && source != target then made[source].content else "";
    WriteInside(made, root, target, content);
    InsideTwice(root, t, made, WriteFile(made, target, content, MODE_0600).tree);
  }

  lemma SetModeInside(t: Tree, root: Path, target: Path, mode: string)
    requires Closed(t) && DirAt(t, root) && Above(root, target)
    ensures Inside(root, t, SetMode(t, target, mode).tree)
  {
  }

  lemma RemoveInside(t: Tree, root: Path, target: Path)
    requires Closed(t) && DirAt(t, root) && Above(root, target)
    ensures Inside(root, t, RemoveAll(t, target))
  {
  }

  lemma EntryStaysInside(t: Tree, root: Path, target: Path, e: Entry)
    requires Closed(t) && DirAt(t, root) && Above(root, target)
    ensures Inside(root, t, ExecuteEntry(t, root, target, e).tree)
  {
    match e.action
    case RestoreFile =>
      var backup := ResolveSafe(root, e.backupPath);
      if backup.Some? {
        RestoreInside(t, root, backup.value, target);
        var restored := RestoreFileAt(t, backup.value, target).tree;
        SetModeInside(restored, root, target, e.mode);
        InsideTwice(root, t, restored, SetMode(restored, target, e.mode).tree);
      }
    case RemoveCreatedPath => RemoveInside(t, root, target);
    case ChmodPath => SetModeInside(t, root, target, e.mode);
    case Unknown =>
  }

  /** One entry: refused unless its path is safe. */
  function PlayEntry(t: Tree, root: Path, e: Entry): Outcome {
    var target := ResolveSafe(root, e.path);
    if target.None? then Outcome(false, t) else ExecuteEntry(t, root, target.value, e)
  }

  /** The entries from last to first, stopping at the first that is refused or fails. */
  function Replay(t: Tree, root: Path, entries: seq<Entry>): Outcome {
    BackwardUntil(t, entries, Playing(root))
  }

  function Playing(root: Path): (Tree, Entry) -> Outcome {
    (t: Tree, e: Entry) => PlayEntry(t, root, e)
  }

  /** Without a directory at the root: its parent is missing too, and no file stands above it. */
  ghost predicate Rootless(t: Tree, root: Path) {
    root != [] && Parent(root) !in t && forall q :: Above(q, root) ==> FileAt(t, q).None?
  }

  /** An entry that gets as far as making the directories of its target. */
  predicate MakesDirectories(root: Path, e: Entry) {
    e.action.RestoreFile? && ResolveSafe(root, e.path).Some? && ResolveSafe(root, e.backupPath).Some?
  }

  /** Outside the root nothing that was there changes, and all that appears are directories above it. */
  ghost predicate Confined(root: Path, t: Tree, t2: Tree) {
    && Closed(t2)
    && (forall q :: !AtOrAbove(root, q) && q in t ==> q in t2 && t2[q] == t[q])
    && (forall q :: !AtOrAbove(root, q) && q in t2 && q !in t ==> Above(q, root) && t2[q] == Dir(MODE_0755))
  }

  lemma NothingAtRoot(t: Tree, root: Path, p: Path)
    requires Closed(t) && !DirAt(t, root) && Above(root, p)
    ensures p !in t && RemoveAll(t, p) == t
  {
    forall q | q in t ensures !AtOrAbove(p, q) {
      if AtOrAbove(p, q) { AncestorIsDir(t, q, root); }
    }
  }

  /** Making a directory below a root that is missing makes the ones above it as well. */
  lemma MkdirConfined(t: Tree, root: Path, dir: Path)
    requires Closed(t) && !DirAt(t, root) && AtOrAbove(root, dir)
    ensures var r := MkdirAll(t, dir, MODE_0755);
            && Confined(root, t, r.tree)
            && (r.ok ==> DirAt(r.tree, dir))
            && (AgreeOutside(root, t, r.tree) <==> !Rootless(t, root))
            && (Rootless(t, root) ==> Parent(root) in r.tree)
  {
    var r := MkdirAll(t, dir, MODE_0755);
    MkdirAllSpec(t, dir, MODE_0755);
    if Rootless(t, root) {
      forall q | AtOrAbove(q, dir) ensures FileAt(t, q).None? {
        if root == q { assert q !in t; } else if Above(root, q) { NothingAtRoot(t, root, q); }
      }
      assert AtOrAbove(Parent(root), dir) && r.ok;
    } else if r.ok && root != [] {
      assert AtOrAbove(Parent(root), dir);
      forall q | Above(q, root) ensures FileAt(t, q).None? && q in t {
        assert AtOrAbove(q, dir);
        if q != Parent(root) { AncestorIsDir(t, Parent(root), q); }
      }
    }
  }

  /** A restore without a directory at the root fails, after making the directories on the way. */
  lemma RestoreWithoutRoot(t: Tree, root: Path, source: Path, target: Path)
    requires Closed(t) && !DirAt(t, root) && Above(root, source) && Above(root, target)
    ensures var r := RestoreFileAt(t, source, target);
            !r.ok && Confined(root, t, r.tree) && (AgreeOutside(root, t, r.tree) <==> !Rootless(t, root))
  {
    var made := MkdirAll(t, Parent(target), MODE_0755);
    MkdirConfined(t, root, Parent(target));
    MkdirAllSpec(t, Parent(target), MODE_0755);
    NothingAtRoot(t, root, source);
    if made.ok && source in made.tree {
      assert made.tree[source].Dir?;
      WriteInside(made.tree, Parent(target), target, "");
      ConfinedTwice(t, root, target, made.tree);
    }
  }

  lemma ConfinedTwice(t: Tree, root: Path, target: Path, made: Tree)
    requires Above(root, target) && Confined(root, t, made) && DirAt(made, Parent(target))
    ensures var r := WriteFile(made, target, "", MODE_0600).tree;
            Confined(root, t, r) && (AgreeOutside(root, t, r) <==> AgreeOutside(root, t, made))
  {
    var r := WriteFile(made, target, "", MODE_0600).tree;
    assert forall q :: q != target ==> (q in r <==> q in made) && (q in r ==> r[q] == made[q]);
  }

  /** A single entry on any tree. Without a directory at the root only a removal works, and it finds
      nothing to remove. */
  lemma EntryConfined(t: Tree, root: Path, e: Entry)
    requires Closed(t) && AllNormal(root)
    ensures var r := PlayEntry(t, root, e);
            && Confined(root, t, r.tree)
            && (AgreeOutside(root, t, r.tree) <==> !(Rootless(t, root) && MakesDirectories(root, e)))
            && (DirAt(t, root) ==> Inside(root, t, r.tree))
            && (!DirAt(t, root) && r.ok ==> r.tree == t && !MakesDirectories(root, e) && GoesOn(root, e))
            && (Rootless(t, root) && GoesOn(root, e) ==> r.ok)
  {
    var target := ResolveSafe(root, e.path);
    ResolveSafeSpec(root, e.path);
    ResolveSafeSpec(root, e.backupPath);
    if DirAt(t, root) {
      if target.Some? { EntryStaysInside(t, root, target.value, e); }
    } else if target.Some? {
      NothingAtRoot(t, root, target.value);
      if MakesDirectories(root, e) { RestoreWithoutRoot(t, root, ResolveSafe(root, e.backupPath).value, target.value); }
      if Rootless(t, root) && GoesOn(root, e) { NoFileAbove(t, root, target.value); }
    }
  }

  /** Without the root the replay gets past an entry like this only. */
  predicate GoesOn(root: Path, e: Entry) {
    e.action.RemoveCreatedPath? && ResolveSafe(root, e.path).Some?
  }

  lemma NoFileAbove(t: Tree, root: Path, target: Path)
    requires Closed(t) && Rootless(t, root) && Above(root, target)
    ensures forall k :: 0 <= k < |target| ==> FileAt(t, target[..k]).None?
  {
    forall k | 0 <= k < |target| ensures FileAt(t, target[..k]).None? {
      var q := target[..k];
      if q in t {
        if AtOrAbove(root, q) {
          assert Above(Parent(root), q);
          AncestorIsDir(t, q, Parent(root));
        } else {
          assert Above(q, root);
        }
      }
    }
  }

  /** Some entry makes directories, and the replay gets past all that come after it in the manifest. */
  predicate Reached(root: Path, entries: seq<Entry>) {
    entries != [] &&
    var e := entries[|entries| - 1];
    MakesDirectories(root, e) || (GoesOn(root, e) && Reached(root, entries[..|entries| - 1]))
  }

  lemma {:induction false} ReplayWithRoot(t: Tree, root: Path, entries: seq<Entry>)
    requires Closed(t) && DirAt(t, root) && AllNormal(root)
    ensures Inside(root, t, Replay(t, root, entries).tree)
    decreases |entries|
  {
    if entries != [] {
      var e := entries[|entries| - 1];
      EntryConfined(t, root, e);
      var r := PlayEntry(t, root, e);
      if r.ok {
        ReplayWithRoot(r.tree, root, entries[..|entries| - 1]);
        InsideTwice(root, t, r.tree, Replay(t, root, entries).tree);
      }
    }
  }

  lemma {:induction false} ReplayWithoutRoot(t: Tree, root: Path, entries: seq<Entry>)
    requires Closed(t) && !DirAt(t, root) && AllNormal(root)
    ensures var r := Replay(t, root, entries);
            && Confined(root, t, r.tree)
            && (AgreeOutside(root, t, r.tree) <==> !(Rootless(t, root) && Reached(root, entries)))
            && (Rootless(t, root) && Reached(root, entries) ==> !r.ok)
    decreases |entries|
  {
    if entries != [] {
      var e := entries[|entries| - 1];
      EntryConfined(t, root, e);
      if PlayEntry(t, root, e).ok { ReplayWithoutRoot(t, root, entries[..|entries| - 1]); }
    }
  }

  /** Whatever the manifest says: outside the root directory nothing that is there changes, and nothing
      at all does unless the root and its parent are missing and a restore with safe paths is
      reached; then the directories above the root appear, and the replay fails. */
  lemma ReplayStaysInside(t: Tree, root: Path, entries: seq<Entry>)
    requires Closed(t) && AllNormal(root)
    ensures var r := Replay(t, root, entries);
            && Confined(root, t, r.tree)
            && (AgreeOutside(root, t, r.tree) <==> !(Rootless(t, root) && Reached(root, entries)))
            && (Rootless(t, root) && Reached(root, entries) ==> !r.ok)
  {
    if DirAt(t, root) {
      ReplayWithRoot(t, root, entries);
      if root != [] { assert DirAt(t, Parent(root)); }
    } else {
      ReplayWithoutRoot(t, root, entries);
    }
  }

  /** A plain file name is safe. */
  lemma PlainNameSafe(root: Path, s: string)
    requires AllNormal(root) && Normal(s) && !Blank(s)
    ensures ResolveSafe(root, s).Some?
  {
    SplitHead(s, "", '/');
    ReduceSnoc([], s, [s], false);
    assert Clean(s) == s && s[0] in s;
    assert |s| > 2 ==> s[2] in s;
    ResolveSafeSpec(root, s);
  }

  lemma NamesSafe(root: Path)
    requires AllNormal(root)
    ensures MakesDirectories(root, Entry(RestoreFile, "f", "b", ""))
  {
    PlainNameSafe(root, "f");
    PlainNameSafe(root, "b");
  }

  /** Without the root and its parent one restore entry is enough: it fails, and its directories stay. */
  lemma OneEntryMakesRoot(t: Tree, root: Path)
    requires Closed(t) && AllNormal(root) && Rootless(t, root)
    ensures var r := Replay(t, root, [Entry(RestoreFile, "f", "b", "")]).tree;
            Confined(root, t, r) && !AgreeOutside(root, t, r)
  {
    NamesSafe(root);
    var entries := [Entry(RestoreFile, "f", "b", "")];
    assert Reached(root, entries);
    ReplayStaysInside(t, root, entries);
  }

  /** So it is with the root /x/y on a tree that has neither. */
  lemma MissingRootIsMade()
    ensures var t: Tree, root := map[[] := Dir(MODE_0755)], ["x", "y"];
            && Closed(t) && AllNormal(root)
            && !AgreeOutside(root, t, Replay(t, root, [Entry(RestoreFile, "f", "b", "")]).tree)
  {
    var t: Tree, root := map[[] := Dir(MODE_0755)], ["x", "y"];
    assert Parent(root) == ["x"];
    OneEntryMakesRoot(t, root);
  }

  // ---------------------------------------------------------------- what a replay does

  /** A removal works exactly when no file stands above the target; nothing is left at or below it. */
  lemma RemovalLeaves(t: Tree, root: Path, e: Entry)
    requires Closed(t) && AllNormal(root) && e.action.RemoveCreatedPath? && ResolveSafe(root, e.path).Some?
    ensures var target, r := ResolveSafe(root, e.path).value, PlayEntry(t, root, e);
            && (r.ok <==> forall q :: Above(q, target) && q in t ==> t[q].Dir?)
            && (forall q :: q in r.tree <==> q in t && !AtOrAbove(target, q))
            && (forall q :: q in r.tree ==> r.tree[q] == t[q])
  {
    NoFilesAbove(t, ResolveSafe(root, e.path).value);
  }

  lemma NoFilesAbove(t: Tree, target: Path)
    ensures (forall k | 0 <= k < |target| :: FileAt(t, target[..k]).None?)
       <==> forall q :: Above(q, target) && q in t ==> t[q].Dir?
  {
    assert forall k :: 0 <= k < |target| ==> Above(target[..k], target);
    forall q | Above(q, target) ensures q == target[..|q|] {}
  }

  /** A change of mode works exactly when the target is there and the mode can be read; the permission
      bits are the only thing that changes. */
  lemma ChmodLeaves(t: Tree, root: Path, e: Entry)
    requires e.action.ChmodPath? && ResolveSafe(root, e.path).Some?
    ensures var target, r := ResolveSafe(root, e.path).value, PlayEntry(t, root, e);
            && (r.ok <==> target in t && ParseMode(e.mode).Some?)
            && (r.ok ==>
                  && r.tree.Keys == t.Keys
                  && r.tree[target].mode == Perm(ParseMode(e.mode).value)
                  && (r.tree[target].Dir? <==> t[target].Dir?) && FileAt(r.tree, target) == FileAt(t, target)
                  && forall q :: q in t && q != target ==> r.tree[q] == t[q])
  {
  }

  lemma FileRestored(t: Tree, source: Path, target: Path)
    requires Closed(t) && target != [] && RestoreFileAt(t, source, target).ok
    ensures FileAt(t, source).Some?
    ensures var r := RestoreFileAt(t, source, target).tree;
            && FileAt(r, target) == Some(if source == target then "" else t[source].content)
            && r[target].mode == (if target in t then t[target].mode else 384)
            && (forall q :: q != target && q in t ==> q in r && r[q] == t[q])
            && (forall q :: q != target && q in r && q !in t ==> Above(q, target) && r[q] == Dir(493))
  {
    MkdirAllSpec(t, Parent(target), MODE_0755);
    AboveParent(target);
  }

  /** A restore that works leaves the content of the backup at the target, or none when both are the same
      file. The mode is the one given, else that of the file that was there, else 0600. */
  lemma RestoreLeaves(t: Tree, root: Path, e: Entry)
    requires Closed(t) && AllNormal(root) && e.action.RestoreFile? && ResolveSafe(root, e.path).Some?
    requires PlayEntry(t, root, e).ok
    ensures ResolveSafe(root, e.backupPath).Some? && FileAt(t, ResolveSafe(root, e.backupPath).value).Some?
    ensures var target, source := ResolveSafe(root, e.path).value, ResolveSafe(root, e.backupPath).value;
            var r := PlayEntry(t, root, e).tree;
            && FileAt(r, target) == Some(if source == target then "" else t[source].content)
            && (e.mode != "" ==> ParseMode(e.mode).Some?)
            && r[target].mode == (if e.mode != "" then Perm(ParseMode(e.mode).value)
                                  else if target in t then t[target].mode else 384)
            && (forall q :: q != target && q in t ==> q in r && r[q] == t[q])
            && (forall q :: q != target && q in r && q !in t ==> Above(q, target) && r[q] == Dir(493))
  {
    var target, source := ResolveSafe(root, e.path).value, ResolveSafe(root, e.backupPath).value;
    ResolveSafeSpec(root, e.path);
    FileRestored(t, source, target);
  }

  lemma FileRestores(t: Tree, source: Path, target: Path)
    requires Closed(t) && target != []
    ensures RestoreFileAt(t, source, target).ok <==>
              && FileAt(t, source).Some?
              && (target in t ==> t[target].File?)
              && (forall q :: Above(q, target) && q in t ==> t[q].Dir?)
  {
    MkdirAllSpec(t, Parent(target), MODE_0755);
    AboveParent(target);
    if MkdirAll(t, Parent(target), MODE_0755).ok { assert AtOrAbove(Parent(target), Parent(target)); }
  }

  /** When a restore works. */
  lemma RestoreWorks(t: Tree, root: Path, e: Entry)
    requires Closed(t) && AllNormal(root) && e.action.RestoreFile? && ResolveSafe(root, e.path).Some?
    ensures var target, backup := ResolveSafe(root, e.path).value, ResolveSafe(root, e.backupPath);
            PlayEntry(t, root, e).ok <==>
              && backup.Some? && FileAt(t, backup.value).Some?
              && (target in t ==> t[target].File?)
              && (forall q :: Above(q, target) && q in t ==> t[q].Dir?)
              && (e.mode == "" || ParseMode(e.mode).Some?)
  {
    var target, backup := ResolveSafe(root, e.path).value, ResolveSafe(root, e.backupPath);
    ResolveSafeSpec(root, e.path);
    if backup.Some? {
      FileRestores(t, backup.value, target);
      if RestoreFileAt(t, backup.value, target).ok { FileRestored(t, backup.value, target); }
    }
  }

  /** An unknown action and a path that is not safe are refused. */
  lemma OthersRefused(t: Tree, root: Path, e: Entry)
    requires e.action.Unknown? || ResolveSafe(root, e.path).None?
    ensures PlayEntry(t, root, e) == Outcome(false, t)
  {
  }

  ghost predicate SameAt(a: Tree, b: Tree, q: Path) {
    (q in a <==> q in b) && (q in a ==> a[q] == b[q])
  }

  /** What the entry was to do has been done to t, by the time the tree is r. */
  ghost predicate DoneFor(t: Tree, root: Path, e: Entry, r: Tree) {
    var target, backup := ResolveSafe(root, e.path), ResolveSafe(root, e.backupPath);
    && target.Some?
    && match e.action
       case RemoveCreatedPath => forall q :: AtOrAbove(target.value, q) ==> q !in r
       case ChmodPath =>
         && target.value in t && target.value in r && ParseMode(e.mode).Some?
         && r[target.value].mode == Perm(ParseMode(e.mode).value)
         && (r[target.value].Dir? <==> t[target.value].Dir?) && FileAt(r, target.value) == FileAt(t, target.value)
         && forall q :: Above(target.value, q) ==> SameAt(t, r, q)
       case RestoreFile =>
         && backup.Some? && FileAt(t, backup.value).Some? && FileAt(r, target.value) == FileAt(t, backup.value)
         && (e.mode != "" ==> ParseMode(e.mode).Some?)
         && r[target.value].mode == if e.mode != "" then Perm(ParseMode(e.mode).value)
                                    else if target.value in t then t[target.value].mode else 384
       case Unknown => false
  }

  ghost predicate Covered(root: Path, entries: seq<Entry>, q: Path) {
    exists i :: 0 <= i < |entries| && ResolveSafe(root, entries[i].path).Some?
                && AtOrAbove(ResolveSafe(root, entries[i].path).value, q)
  }

  ghost predicate LeadsToRestored(root: Path, entries: seq<Entry>, q: Path) {
    exists i :: 0 <= i < |entries| && entries[i].action.RestoreFile? && ResolveSafe(root, entries[i].path).Some?
                && Above(q, ResolveSafe(root, entries[i].path).value)
  }

  /** Away from the targets nothing that was there changes, and all that is new are directories that lead
      to restored files. */
  ghost predicate OnlyTargets(t: Tree, root: Path, entries: seq<Entry>, r: Tree) {
    forall q :: !Covered(root, entries, q) ==>
      && (q in t ==> q in r && r[q] == t[q])
      && (q in r && q !in t ==> r[q] == Dir(493) && LeadsToRestored(root, entries, q))
  }

  /** No entry has its target at or above the target of another, or a backup. */
  ghost predicate Apart(root: Path, entries: seq<Entry>) {
    && (forall i :: 0 <= i < |entries| ==> ResolveSafe(root, entries[i].path).Some?)
    && (forall i, j :: 0 <= i < |entries| && 0 <= j < |entries| && i != j ==>
        TargetsApart(root, entries[i], entries[j]))
    && (forall i, j :: 0 <= i < |entries| && 0 <= j < |entries| ==> BackupSpared(root, entries[i], entries[j]))
  }

  ghost predicate TargetsApart(root: Path, e: Entry, f: Entry)
    requires ResolveSafe(root, e.path).Some? && ResolveSafe(root, f.path).Some?
  {
    !AtOrAbove(ResolveSafe(root, e.path).value, ResolveSafe(root, f.path).value)
  }

  ghost predicate BackupSpared(root: Path, e: Entry, f: Entry)
    requires ResolveSafe(root, f.path).Some?
  {
    e.action.RestoreFile? && ResolveSafe(root, e.backupPath).Some? ==>
      !AtOrAbove(ResolveSafe(root, f.path).value, ResolveSafe(root, e.backupPath).value)
  }

  lemma OneDone(t: Tree, root: Path, e: Entry)
    requires Closed(t) && AllNormal(root) && PlayEntry(t, root, e).ok
    requires ResolveSafe(root, e.path).Some? && BackupSpared(root, e, e)
    ensures DoneFor(t, root, e, PlayEntry(t, root, e).tree) && OnlyTargets(t, root, [e], PlayEntry(t, root, e).tree)
  {
    var target, r := ResolveSafe(root, e.path).value, PlayEntry(t, root, e).tree;
    match e.action {
      case RemoveCreatedPath => RemovalLeaves(t, root, e);
      case ChmodPath => ChmodLeaves(t, root, e);
      case RestoreFile => RestoreLeaves(t, root, e);
      case Unknown =>
    }
    forall q | !Covered(root, [e], q) ensures !AtOrAbove(target, q) { assert [e][0] == e; }
    if e.action.RestoreFile? {
      forall q | Above(q, target) ensures LeadsToRestored(root, [e], q) { assert [e][0] == e; }
    }
  }

  /** What one entry did stays done while others, apart from it, are replayed. */
  lemma StaysDone(t: Tree, root: Path, e: Entry, r: Tree, entries: seq<Entry>, r2: Tree)
    requires ResolveSafe(root, e.path).Some? && DoneFor(t, root, e, r) && OnlyTargets(r, root, entries, r2)
    requires forall i :: 0 <= i < |entries| ==> ResolveSafe(root, entries[i].path).Some?
    requires forall i :: 0 <= i < |entries| ==> TargetsApart(root, e, entries[i]) && TargetsApart(root, entries[i], e)
    ensures DoneFor(t, root, e, r2)
  {
    var target := ResolveSafe(root, e.path).value;
    forall q | AtOrAbove(target, q) ensures SameAt(r, r2, q) {
      forall i | 0 <= i < |entries|
        ensures !AtOrAbove(ResolveSafe(root, entries[i].path).value, q)
        ensures !Above(q, ResolveSafe(root, entries[i].path).value)
      {
        assert TargetsApart(root, e, entries[i]) && TargetsApart(root, entries[i], e);
      }
      assert !Covered(root, entries, q) && !LeadsToRestored(root, entries, q);
    }
    assert AtOrAbove(target, target);
    forall q | Above(target, q) ensures AtOrAbove(target, q) {}
  }

  /** What is done for an entry after another one was replayed is done for it all the same. */
  lemma DoneBefore(t: Tree, root: Path, e: Entry, r: Tree, f: Entry, r2: Tree)
    requires ResolveSafe(root, e.path).Some? && ResolveSafe(root, f.path).Some? && DoneFor(r, root, f, r2)
    requires OnlyTargets(t, root, [e], r)
    requires TargetsApart(root, e, f) && TargetsApart(root, f, e) && BackupSpared(root, f, e)
    ensures DoneFor(t, root, f, r2)
  {
    var target := ResolveSafe(root, f.path).value;
    forall q | !AtOrAbove(ResolveSafe(root, e.path).value, q) ensures !Covered(root, [e], q) {}
    forall q | AtOrAbove(target, q) ensures SameAt(t, r, q) {
      assert !AtOrAbove(ResolveSafe(root, e.path).value, q);
      assert !LeadsToRestored(root, [e], q);
    }
    assert AtOrAbove(target, target);
    forall q | Above(target, q) ensures AtOrAbove(target, q) {}
  }

  lemma OnlyTargetsOn(t: Tree, root: Path, entries: seq<Entry>, k: nat, r: Tree, r2: Tree)
    requires k + 1 == |entries| && OnlyTargets(t, root, [entries[k]], r) && OnlyTargets(r, root, entries[..k], r2)
    ensures OnlyTargets(t, root, entries, r2)
  {
    forall i | 0 <= i < k ensures entries[..k][i] == entries[i] {}
    forall q | !Covered(root, entries, q) ensures !Covered(root, entries[..k], q) && !Covered(root, [entries[k]], q) {}
    forall q | LeadsToRestored(root, entries[..k], q) || LeadsToRestored(root, [entries[k]], q)
      ensures LeadsToRestored(root, entries, q)
    {
      if LeadsToRestored(root, entries[..k], q) {
        var i :| 0 <= i < k && entries[..k][i].action.RestoreFile? && ResolveSafe(root, entries[..k][i].path).Some?
          && Above(q, ResolveSafe(root, entries[..k][i].path).value);
        assert entries[..k][i] == entries[i];
      }
    }
  }

  lemma ApartFront(root: Path, entries: seq<Entry>, k: nat)
    requires k <= |entries| && Apart(root, entries)
    ensures Apart(root, entries[..k])
  {
    forall i, j | 0 <= i < k && 0 <= j < k && i != j ensures TargetsApart(root, entries[..k][i], entries[..k][j]) {
      assert TargetsApart(root, entries[i], entries[j]);
    }
    forall i, j | 0 <= i < k && 0 <= j < k ensures BackupSpared(root, entries[..k][i], entries[..k][j]) {
      assert BackupSpared(root, entries[i], entries[j]);
    }
  }

  /** A replay that works, of entries apart from each other, has done what every entry says: created paths
      are gone, files have the content of their backups and the modes recorded, and nothing else
      has changed but for directories that lead to restored files. */
  lemma {:induction false} ReplayUndoes(t: Tree, root: Path, entries: seq<Entry>)
    requires Closed(t) && AllNormal(root) && Apart(root, entries) && Replay(t, root, entries).ok
    ensures var r := Replay(t, root, entries).tree;
            && (forall i :: 0 <= i < |entries| ==> DoneFor(t, root, entries[i], r))
            && OnlyTargets(t, root, entries, r)
    decreases |entries|
  {
    if entries != [] {
      var k: nat := |entries| - 1;
      var e, front := entries[k], entries[..k];
      var r := PlayEntry(t, root, e).tree;
      EntryConfined(t, root, e);
      assert BackupSpared(root, e, e);
      OneDone(t, root, e);
      ApartFront(root, entries, k);
      ReplayUndoes(r, root, front);
      var r2 := Replay(r, root, front).tree;
      forall i | 0 <= i < k ensures TargetsApart(root, e, front[i]) && TargetsApart(root, front[i], e) {
        assert front[i] == entries[i] && TargetsApart(root, entries[k], entries[i])
            && TargetsApart(root, entries[i], entries[k]);
      }
      StaysDone(t, root, e, r, front, r2);
      OnlyTargetsOn(t, root, entries, k, r, r2);
      forall i | 0 <= i < k ensures DoneFor(t, root, entries[i], r2) {
        assert front[i] == entries[i] && BackupSpared(root, entries[i], entries[k]);
        DoneBefore(t, root, e, r, front[i], r2);
      }
    }
  }

  method ExecuteOne(disk: Disk, root: Path, entry: Entry) returns (done: Option<Step>)
    modifies disk
    ensures PlayEntry(old(disk.tree), root, entry) == Outcome(done.Some?, disk.tree)
    ensures done.Some? ==> StepOf(root, entry, done.value)
  {
    var target := ResolveSafe(root, entry.path);
    if target.None? { return None; }
    var r := ExecuteEntry(disk.tree, root, target.value, entry);
    disk.tree := r.tree;
    done := if r.ok then Some(Step(entry.action, target.value)) else None;
  }

  ghost predicate StepOf(root: Path, e: Entry, step: Step) {
    step.action == e.action && ResolveSafe(root, e.path) == Some(step.path)
  }

  lemma ReplayFromLast(t: Tree, root: Path, entries: seq<Entry>, n: nat)
    requires n < |entries|
    ensures var r := PlayEntry(t, root, entries[n]);
            Replay(t, root, entries[..n + 1]) == if r.ok then Replay(r.tree, root, entries[..n]) else r
  {
    BackwardUntilFrom(t, entries, n, Playing(root));
  }

  ghost predicate StepAt(root: Path, entries: seq<Entry>, executed: seq<Step>, i: nat)
    requires i < |executed| <= |entries|
  {
    StepOf(root, entries[|entries| - 1 - i], executed[i])
  }

  /** The executed steps are those of the last entries, from the last one on. */
  ghost predicate StepsOf(root: Path, entries: seq<Entry>, executed: seq<Step>) {
    |executed| <= |entries| && forall i: nat :: i < |executed| ==> StepAt(root, entries, executed, i)
  }

  lemma StepsSnoc(root: Path, entries: seq<Entry>, executed: seq<Step>, step: Step)
    requires |executed| < |entries| && StepsOf(root, entries, executed)
    requires StepOf(root, entries[|entries| - 1 - |executed|], step)
    ensures StepsOf(root, entries, executed + [step])
  {
    var more := executed + [step];
    forall i: nat | i < |more| ensures StepAt(root, entries, more, i) {
      if i < |executed| { assert StepAt(root, entries, executed, i) && more[i] == executed[i]; }
    }
  }

  /** Execute. */
  method Execute(disk: Disk, root: Path, entries: seq<Entry>) returns (ok: bool, executed: seq<Step>)
    modifies disk
    ensures Outcome(ok, disk.tree) == Replay(old(disk.tree), root, entries)
    ensures StepsOf(root, entries, executed) && (ok <==> |executed| == |entries|)
  {
    executed := [];
    var index := |entries|;
    assert entries[..index] == entries;
    while index > 0
      invariant 0 <= index <= |entries| && |executed| == |entries| - index
      invariant Replay(old(disk.tree), root, entries) == Replay(disk.tree, root, entries[..index])
      invariant StepsOf(root, entries, executed)
      decreases index
    {
      index := index - 1;
      ReplayFromLast(disk.tree, root, entries, index);
      var step := ExecuteOne(disk, root, entries[index]);
      if step.None? { return false, executed; }
      StepsSnoc(root, entries, executed, step.value);
      executed := executed + [step.value];
    }
    ok := true;
  }
}
