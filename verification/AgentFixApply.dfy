/** internal/agentfix: applying a difference with backups inside the target tree, and
    rolling it back from the manifest. */
module AgentFixApply {
  import opened Wrappers
  import opened FileTree
  import opened Steps
  import opened Text
  import opened AgentFix

  datatype ManifestChange = ManifestChange(path: Path, kind: ChangeType, backupPath: Path)

  function Backup(dir: Path, p: Path): Path {
    dir + ["original"] + p
  }

  /** copyFile from the staging tree into the target. */
  function CopyIn(t: Tree, staging: Tree, p: Path): Outcome {
    if p !in staging then Outcome(false, t)
    else if staging[p].Dir? then Outcome(false, Put(t, p, "", MODE_0644).tree)
    else Put(t, p, staging[p].content, MODE_0644)
  }

  function Remove(t: Tree, p: Path): Outcome {
    if p !in t then Outcome(false, t) else RemoveIfPresent(t, p)
  }

  function ApplyOne(t: Tree, staging: Tree, dir: Path, c: Change): Outcome {
    match c.kind
    case Create => CopyIn(t, staging, c.path)
    case Modify =>
      var saved := CopyFile(t, c.path, Backup(dir, c.path), MODE_0644);
      if saved.ok then CopyIn(saved.tree, staging, c.path) else saved
    case Delete =>
      var saved := CopyFile(t, c.path, Backup(dir, c.path), MODE_0644);
      if saved.ok then Remove(saved.tree, c.path) else saved
  }

  /** The changes in order, stopping at the first that fails. */
  function Applied(t: Tree, staging: Tree, dir: Path, changes: seq<Change>): Outcome {
    Forward(t, changes, Applying(staging, dir))
  }

  function Applying(staging: Tree, dir: Path): (Tree, Change) -> Outcome {
    (t: Tree, c: Change) => ApplyOne(t, staging, dir, c)
  }

  function ManifestEntry(dir: Path, c: Change): ManifestChange {
    ManifestChange(c.path, c.kind, if c.kind.Create? then [] else Backup(dir, c.path))
  }

  function ManifestFor(dir: Path, changes: seq<Change>): seq<ManifestChange> {
    seq(|changes|, i requires 0 <= i < |changes| => ManifestEntry(dir, changes[i]))
  }

  function BackupDir(name: string): Path {
    [BACKUPS, "external-" + name]
  }

  /** The whole of applyChanges: backup directory, changes, manifest file. */
  function ApplyAll(t: Tree, staging: Tree, dir: Path, changes: seq<Change>, manifestText: string): Outcome {
    var made := MkdirAll(t, dir, MODE_0755);
    if !made.ok then made
    else
      var applied := Applied(made.tree, staging, dir, changes);
      if !applied.ok then applied
      else WriteFile(applied.tree, ManifestFile(dir), manifestText, MODE_0644)
  }

  method ApplyChanges(target: Disk, staging: Tree, changes: seq<Change>, stamp: string,
                      encode: seq<ManifestChange> -> string)
    returns (ok: bool, dir: Path, manifest: seq<ManifestChange>)
    modifies target
    ensures dir == BackupDir(stamp)
    ensures Outcome(ok, target.tree)
         == ApplyAll(old(target.tree), staging, dir, changes, encode(ManifestFor(dir, changes)))
    ensures ok ==> manifest == ManifestFor(dir, changes)
    ensures ok ==> |manifest| == |changes| && forall i :: 0 <= i < |changes| ==>
              && manifest[i].path == changes[i].path && manifest[i].kind == changes[i].kind
              && manifest[i].backupPath == if changes[i].kind.Create? then [] else dir + ["original"] + changes[i].path
  {
    dir, manifest := BackupDir(stamp), [];
    var made := MkdirAll(target.tree, dir, MODE_0755);
    ghost var start := made.tree;
    target.tree := made.tree;
    if !made.ok { return false, dir, manifest; }
    for i := 0 to |changes|
      invariant Applied(start, staging, dir, changes[..i]) == Outcome(true, target.tree)
      invariant manifest == ManifestFor(dir, changes[..i])
    {
      AppliedOn(start, staging, dir, changes, i);
      var step := ApplyOne(target.tree, staging, dir, changes[i]);
      target.tree := step.tree;
      if !step.ok {
        ForwardStops(start, changes, i + 1, Applying(staging, dir));
        return false, dir, manifest;
      }
      ManifestOn(dir, changes, i);
      manifest := manifest + [ManifestEntry(dir, changes[i])];
    }
    assert changes[..|changes|] == changes;
    var written := WriteFile(target.tree, ManifestFile(dir), encode(manifest), MODE_0644);
    target.tree := written.tree;
    ok := written.ok;
  }

  lemma ManifestOn(dir: Path, changes: seq<Change>, i: nat)
    requires i < |changes|
    ensures ManifestFor(dir, changes[..i + 1]) == ManifestFor(dir, changes[..i]) + [ManifestEntry(dir, changes[i])]
  {
  }

  // ---------------------------------------------------------------- what one run assumes

  /** The backup directory can be made, or it is there from a run of the same second and holds no
      backup of the other kind: no file where the target has a directory and no directory
      where it has a file. */
  ghost predicate BackupsFit(t0: Tree, dir: Path) {
    if dir in t0 then Mirror(t0, dir, t0) else FileAt(t0, [BACKUPS]).None?
  }

  /** changes is the difference between the two trees, and there is room for the backups. */
  ghost predicate Ready(t0: Tree, staging: Tree, m: Matcher, stamp: string, changes: seq<Change>) {
    && Closed(t0) && Closed(staging)
    && BACKUPS in m.names
    && BackupsFit(t0, BackupDir(stamp))
    && IsDiff(Snapshot(t0, m), Snapshot(staging, m), changes)
  }

  ghost predicate InPaths(changes: seq<Change>, p: Path) {
    exists c :: c in changes && c.path == p
  }

  /** p becomes a directory because some change creates a file below it. */
  ghost predicate Makes(changes: seq<Change>, p: Path) {
    exists c :: c in changes && c.kind.Create? && Above(p, c.path)
  }

  lemma ChangeFacts(t0: Tree, staging: Tree, m: Matcher, stamp: string, changes: seq<Change>, c: Change)
    requires Ready(t0, staging, m, stamp, changes) && c in changes
    ensures c.path != [] && c.path[0] != BACKUPS && !Skip(m, c.path)
    ensures c.kind.Create? <==> FileAt(t0, c.path).None?
    ensures c.kind.Delete? <==> FileAt(staging, c.path).None?
  {
    assert ChangeFor(Snapshot(t0, m), Snapshot(staging, m), c.path) == Some(c);
    if c.path != [] && c.path[0] == BACKUPS { BackupsSkipped(m, c.path); }
  }

  lemma OutsideBackups(dir: Path, stamp: string, p: Path)
    requires dir == BackupDir(stamp) && p != [] && p[0] != BACKUPS
    ensures !AtOrAbove(dir, p) && !Above(p, dir)
    ensures forall q :: Above(q, p) ==> !AtOrAbove(dir, q) && (Above(q, dir) ==> q == [])
    ensures forall x :: Backup(dir, x) != p && !Above(Backup(dir, x), p)
    ensures ManifestFile(dir) != p && !Above(ManifestFile(dir), p)
  {
  }

  /** A file that gives way to a directory is deleted before anything is created below it. */
  lemma DeleteComesFirst(t0: Tree, staging: Tree, m: Matcher, stamp: string, changes: seq<Change>, i: nat, q: Path)
    requires Ready(t0, staging, m, stamp, changes) && i < |changes|
    requires changes[i].kind.Create? && Above(q, changes[i].path) && FileAt(t0, q).Some?
    ensures InPaths(changes[..i], q)
  {
    var p := changes[i].path;
    ChangeFacts(t0, staging, m, stamp, changes, changes[i]);
    AncestorIsDir(staging, p, q);
    if Skip(m, q) { SkipIsInherited(m, q, p); }
    var d := Change(q, Delete, 0);
    assert ChangeFor(Snapshot(t0, m), Snapshot(staging, m), q) == Some(d);
    assert d in changes;
    var j :| 0 <= j < |changes| && changes[j] == d;
    if i < j {
      assert PathLessEq(changes[i], changes[j]);
      assert q != [] by { assert t0[[]].Dir?; }
      JoinPrefix(q, p, '/');
      PrefixLessEq(Join(q, '/'), Join(p, '/'));
      LessEqTotal(Join(q, '/'), Join(p, '/'));
    }
    assert changes[..i][j] == d;
  }

  // ---------------------------------------------------------------- the state between steps

  /** After the changes `done`, with directories made for the changes `made`: outside the backup
      directory the done paths hold the staged files and all others the original ones, and every
      replaced or deleted file has its backup. */
  ghost predicate Stage(t0: Tree, staging: Tree, dir: Path, done: seq<Change>, made: seq<Change>, t: Tree) {
    && Closed(t)
    && (forall p :: !AtOrAbove(dir, p) ==> FileAt(t, p) == if InPaths(done, p) then FileAt(staging, p)
        else FileAt(t0, p))
    && (forall p :: !AtOrAbove(dir, p) ==> (DirAt(t, p) <==> DirAt(t0, p) || Above(p, dir) || Makes(made, p)))
    && (forall c {:trigger Backup(dir, c.path)} :: c in done && !c.kind.Create? ==>
        FileAt(t, Backup(dir, c.path)) == FileAt(t0, c.path))
  }

  function ManifestFile(dir: Path): Path {
    dir + ["rollback-manifest.json"]
  }

  /** The backup area does not clash with the original tree, and this run has no manifest yet. */
  ghost predicate Mirror(t0: Tree, dir: Path, t: Tree) {
    && DirAt(t, dir)
    && !DirAt(t, ManifestFile(dir)) && FileAt(t, ManifestFile(dir)) == FileAt(t0, ManifestFile(dir))
    && FileAt(t, dir + ["original"]).None?
    && (forall x :: x != [] && FileAt(t, Backup(dir, x)).Some? ==> !DirAt(t0, x))
    && (forall x :: x != [] && DirAt(t, Backup(dir, x)) ==> FileAt(t0, x).None?)
  }

  lemma InPathsSnoc(done: seq<Change>, c: Change)
    ensures forall p :: InPaths(done + [c], p) <==> InPaths(done, p) || p == c.path
    ensures forall p :: Makes(done + [c], p) <==> Makes(done, p) || (c.kind.Create? && Above(p, c.path))
  {
    forall p ensures InPaths(done + [c], p) <==> InPaths(done, p) || p == c.path {
      assert c in done + [c];
      if InPaths(done, p) { var d :| d in done && d.path == p; assert d in done + [c]; }
    }
    forall p ensures Makes(done + [c], p) <==> Makes(done, p) || (c.kind.Create? && Above(p, c.path)) {
      assert c in done + [c];
      if Makes(done, p) { var d :| d in done && d.kind.Create? && Above(p, d.path); assert d in done + [c]; }
    }
  }

  lemma NotDoneYet(t0: Tree, staging: Tree, m: Matcher, stamp: string, changes: seq<Change>, i: nat)
    requires Ready(t0, staging, m, stamp, changes) && i < |changes|
    ensures !InPaths(changes[..i], changes[i].path)
  {
  }

  lemma StepCreate(t0: Tree, staging: Tree, m: Matcher, stamp: string, changes: seq<Change>, i: nat, t: Tree)
    requires Ready(t0, staging, m, stamp, changes) && i < |changes| && changes[i].kind.Create?
    requires var dir := BackupDir(stamp); Stage(t0, staging, dir, changes[..i], changes[..i], t) && Mirror(t0, dir, t)
    ensures var dir := BackupDir(stamp); var r := ApplyOne(t, staging, dir, changes[i]);
            && (r.ok <==> !DirAt(t0, changes[i].path))
            && (r.ok ==>
                  && Stage(t0, staging, dir, changes[..i] + [changes[i]], changes[..i] + [changes[i]], r.tree)
                  && Mirror(t0, dir, r.tree))
            && (!r.ok ==> r.tree == t)
  {
    var dir, c, done := BackupDir(stamp), changes[i], changes[..i];
    var p := c.path;
    ChangeFacts(t0, staging, m, stamp, changes, c);
    OutsideBackups(dir, stamp, p);
    PutSpec(t, p, staging[p].content, MODE_0644);
    if Makes(done, p) {
      var d :| d in done && d.kind.Create? && Above(p, d.path);
      ChangeFacts(t0, staging, m, stamp, changes, d);
      AncestorIsDir(staging, d.path, p);
    }
    forall q | Above(q, p)
      ensures FileAt(t, q).None?
    {
      AncestorIsDir(staging, p, q);
      if FileAt(t0, q).Some? { DeleteComesFirst(t0, staging, m, stamp, changes, i, q); }
    }
    InPathsSnoc(done, c);
  }

  lemma BackupAncestors(dir: Path, p: Path, q: Path)
    requires p != [] && Above(q, Backup(dir, p))
    ensures AtOrAbove(q, dir) || q == dir + ["original"] || (exists x :: x != [] && Above(x, p) && q == Backup(dir, x))
  {
    if |q| > |dir| + 1 {
      var x := q[|dir| + 1..];
      assert q == Backup(dir, x) && Above(x, p) && x != [];
    } else if |q| == |dir| + 1 {
      assert q == dir + ["original"];
    }
  }

  /** t2 is t with a file at dst and the directories above it. */
  ghost predicate Wrote(t: Tree, dst: Path, content: string, t2: Tree) {
    && Closed(t2)
    && (forall q :: FileAt(t2, q) == if q == dst then Some(content) else FileAt(t, q))
    && (forall q :: DirAt(t2, q) <==> DirAt(t, q) || Above(q, dst))
  }

  /** Taking the backup of a file that is still the original one always works. */
  lemma SaveWorks(t0: Tree, dir: Path, t: Tree, p: Path)
    requires Closed(t0) && Closed(t) && Mirror(t0, dir, t)
    requires p != [] && !AtOrAbove(dir, p) && FileAt(t, p).Some? && FileAt(t0, p).Some?
    ensures var r := CopyFile(t, p, Backup(dir, p), MODE_0644);
            r.ok && Wrote(t, Backup(dir, p), t[p].content, r.tree)
    ensures forall q :: Above(q, Backup(dir, p)) && !AtOrAbove(dir, q) ==> Above(q, dir)
  {
    var b := Backup(dir, p);
    assert b != p by { assert AtOrAbove(dir, b); }
    PutSpec(t, b, t[p].content, MODE_0644);
    forall q | Above(q, b)
      ensures FileAt(t, q).None? && (!AtOrAbove(dir, q) ==> Above(q, dir))
    {
      BackupAncestors(dir, p, q);
      if AtOrAbove(q, dir) {
        if q != dir { AncestorIsDir(t, dir, q); }
      } else if q != dir + ["original"] {
        var x :| x != [] && Above(x, p) && q == Backup(dir, x);
        AncestorIsDir(t0, p, x);
      }
    }
  }

  lemma SaveKeepsMirror(t0: Tree, dir: Path, t: Tree, p: Path, t2: Tree)
    requires Closed(t0) && Mirror(t0, dir, t) && p != [] && FileAt(t0, p).Some?
    requires Wrote(t, Backup(dir, p), t0[p].content, t2)
    ensures Mirror(t0, dir, t2)
  {
    var b := Backup(dir, p);
    forall x | x != [] && DirAt(t2, Backup(dir, x))
      ensures FileAt(t0, x).None?
    {
      if Above(Backup(dir, x), b) {
        assert x == Backup(dir, x)[|dir| + 1..] && p == b[|dir| + 1..];
        AncestorIsDir(t0, p, x);
      }
    }
    forall x | x != [] && FileAt(t2, Backup(dir, x)).Some?
      ensures !DirAt(t0, x)
    {
      if Backup(dir, x) == b { assert x == b[|dir| + 1..] == p; }
    }
    assert dir + ["original"] != b;
    assert b[|dir|] == "original" && ManifestFile(dir)[|dir|] == "rollback-manifest.json";
  }

  lemma SaveKeepsStage(t0: Tree, staging: Tree, dir: Path, done: seq<Change>, made: seq<Change>, t: Tree, p: Path,
                       t2: Tree)
    requires Stage(t0, staging, dir, done, made, t) && !InPaths(done, p)
    requires FileAt(t0, p).Some? && Wrote(t, Backup(dir, p), t0[p].content, t2)
    requires forall q :: Above(q, Backup(dir, p)) && !AtOrAbove(dir, q) ==> Above(q, dir)
    ensures Stage(t0, staging, dir, done, made, t2)
  {
    var b := Backup(dir, p);
    assert AtOrAbove(dir, b);
    forall c | c in done && !c.kind.Create?
      ensures FileAt(t2, Backup(dir, c.path)) == FileAt(t0, c.path)
    {
      assert InPaths(done, c.path);
      assert Backup(dir, c.path)[|dir| + 1..] == c.path && b[|dir| + 1..] == p;
    }
  }

  /** Replacing a file that is there by its staged content touches nothing else. */
  lemma ReplaceStep(t: Tree, staging: Tree, p: Path)
    requires Closed(t) && p != [] && FileAt(t, p).Some? && FileAt(staging, p).Some?
    ensures var r := CopyIn(t, staging, p);
            && r.ok && Closed(r.tree)
            && (forall q :: FileAt(r.tree, q) == if q == p then FileAt(staging, p) else FileAt(t, q))
            && (forall q :: DirAt(r.tree, q) <==> DirAt(t, q))
  {
    PutSpec(t, p, staging[p].content, MODE_0644);
    forall q | Above(q, p) ensures DirAt(t, q) { AncestorIsDir(t, p, q); }
  }

  lemma SaveStep(t0: Tree, staging: Tree, m: Matcher, stamp: string, changes: seq<Change>, i: nat, t: Tree)
    requires Ready(t0, staging, m, stamp, changes) && i < |changes| && !changes[i].kind.Create?
    requires var dir := BackupDir(stamp); Stage(t0, staging, dir, changes[..i], changes[..i], t) && Mirror(t0, dir, t)
    ensures var dir, p := BackupDir(stamp), changes[i].path; var saved := CopyFile(t, p, Backup(dir, p), MODE_0644);
            && saved.ok && Stage(t0, staging, dir, changes[..i], changes[..i], saved.tree)
                 && Mirror(t0, dir, saved.tree)
            && FileAt(saved.tree, p) == FileAt(t0, p) && FileAt(saved.tree, Backup(dir, p)) == FileAt(t0, p)
  {
    var dir, c, done := BackupDir(stamp), changes[i], changes[..i];
    ChangeFacts(t0, staging, m, stamp, changes, c);
    OutsideBackups(dir, stamp, c.path);
    NotDoneYet(t0, staging, m, stamp, changes, i);
    SaveWorks(t0, dir, t, c.path);
    var saved := CopyFile(t, c.path, Backup(dir, c.path), MODE_0644);
    SaveKeepsMirror(t0, dir, t, c.path, saved.tree);
    SaveKeepsStage(t0, staging, dir, done, done, t, c.path, saved.tree);
  }

  /** The file at the path of a change gets its staged state and nothing else happens. */
  lemma ChangedStage(t0: Tree, staging: Tree, dir: Path, done: seq<Change>, c: Change, saved: Tree, t: Tree)
    requires Stage(t0, staging, dir, done, done, saved) && Mirror(t0, dir, saved) && Closed(t) && !c.kind.Create?
    requires FileAt(saved, Backup(dir, c.path)) == FileAt(t0, c.path)
    requires forall q :: FileAt(t, q) == if q == c.path then FileAt(staging, q) else FileAt(saved, q)
    requires forall q :: DirAt(t, q) <==> DirAt(saved, q)
    requires !AtOrAbove(dir, c.path)
    ensures Stage(t0, staging, dir, done + [c], done + [c], t) && Mirror(t0, dir, t)
  {
    InPathsSnoc(done, c);
    forall x ensures AtOrAbove(dir, Backup(dir, x)) && FileAt(t, Backup(dir, x)) == FileAt(saved, Backup(dir, x)) {}
    assert AtOrAbove(dir, ManifestFile(dir)) && AtOrAbove(dir, dir + ["original"]);
  }

  lemma StepReplace(t0: Tree, staging: Tree, m: Matcher, stamp: string, changes: seq<Change>, i: nat, t: Tree)
    requires Ready(t0, staging, m, stamp, changes) && i < |changes| && !changes[i].kind.Create?
    requires var dir := BackupDir(stamp); Stage(t0, staging, dir, changes[..i], changes[..i], t) && Mirror(t0, dir, t)
    ensures var dir, after := BackupDir(stamp), changes[..i] + [changes[i]];
              var r := ApplyOne(t, staging, dir, changes[i]);
            r.ok && Stage(t0, staging, dir, after, after, r.tree) && Mirror(t0, dir, r.tree)
  {
    var dir, c, done := BackupDir(stamp), changes[i], changes[..i];
    ChangeFacts(t0, staging, m, stamp, changes, c);
    OutsideBackups(dir, stamp, c.path);
    SaveStep(t0, staging, m, stamp, changes, i, t);
    var saved := CopyFile(t, c.path, Backup(dir, c.path), MODE_0644);
    if c.kind.Modify? {
      ReplaceStep(saved.tree, staging, c.path);
    } else {
      RemoveFileSpec(saved.tree, c.path);
    }
    ChangedStage(t0, staging, dir, done, c, saved.tree, ApplyOne(t, staging, dir, c).tree);
  }

  lemma StartState(t0: Tree, staging: Tree, m: Matcher, stamp: string, changes: seq<Change>)
    requires Ready(t0, staging, m, stamp, changes)
    ensures var dir := BackupDir(stamp); var r := MkdirAll(t0, dir, MODE_0755);
            r.ok && Stage(t0, staging, dir, [], [], r.tree) && Mirror(t0, dir, r.tree)
  {
    var dir := BackupDir(stamp);
    if dir in t0 {
      forall q | Above(q, dir) ensures DirAt(t0, q) { AncestorIsDir(t0, dir, q); }
    } else {
      FreshBackups(t0, stamp);
    }
  }

  lemma FreshBackups(t0: Tree, stamp: string)
    requires Closed(t0) && BackupDir(stamp) !in t0 && FileAt(t0, [BACKUPS]).None?
    ensures var dir := BackupDir(stamp); var r := MkdirAll(t0, dir, MODE_0755);
            && r.ok && Closed(r.tree) && Mirror(t0, dir, r.tree)
            && (forall p :: !AtOrAbove(dir, p) ==> FileAt(r.tree, p) == FileAt(t0, p))
            && (forall p :: !AtOrAbove(dir, p) ==> (DirAt(r.tree, p) <==> DirAt(t0, p) || Above(p, dir)))
  {
    var dir := BackupDir(stamp);
    MkdirAllSpec(t0, dir, MODE_0755);
    forall q | AtOrAbove(q, dir) ensures FileAt(t0, q).None? {
      assert q == [] || q == [BACKUPS] || q == dir;
    }
    forall q | AtOrAbove(dir, q) ensures q !in t0 {
      if q in t0 && q != dir { AncestorIsDir(t0, q, dir); }
    }
    assert forall q :: AtOrAbove(q, dir) && !AtOrAbove(dir, q) ==> Above(q, dir);
    assert forall x :: x != [] ==> AtOrAbove(dir, Backup(dir, x)) && !AtOrAbove(Backup(dir, x), dir);
    assert AtOrAbove(dir, dir + ["original"]) && AtOrAbove(dir, ManifestFile(dir))
        && !AtOrAbove(ManifestFile(dir), dir);
  }

  /** One more change: it fails exactly when it creates a file where a directory was. */
  lemma Step(t0: Tree, staging: Tree, m: Matcher, stamp: string, changes: seq<Change>, i: nat, t: Tree)
    requires Ready(t0, staging, m, stamp, changes) && i < |changes|
    requires Stage(t0, staging, BackupDir(stamp), changes[..i], changes[..i], t) && Mirror(t0, BackupDir(stamp), t)
    ensures var r := ApplyOne(t, staging, BackupDir(stamp), changes[i]);
            && (r.ok <==> !(changes[i].kind.Create? && DirAt(t0, changes[i].path)))
            && (r.ok ==> Stage(t0, staging, BackupDir(stamp), changes[..i + 1], changes[..i + 1], r.tree))
            && (r.ok ==> Mirror(t0, BackupDir(stamp), r.tree))
            && (!r.ok ==> r.tree == t)
  {
    assert changes[..i + 1] == changes[..i] + [changes[i]];
    if changes[i].kind.Create? {
      StepCreate(t0, staging, m, stamp, changes, i, t);
    } else {
      StepReplace(t0, staging, m, stamp, changes, i, t);
    }
  }

  /** Some path that the first i changes create is already a directory. */
  ghost predicate Blocked(t0: Tree, changes: seq<Change>, i: nat)
    requires i <= |changes|
  {
    exists k :: 0 <= k < i && changes[k].kind.Create? && DirAt(t0, changes[k].path)
  }

  /** The first i changes work exactly when no path to create is a directory. */
  ghost predicate Reached(t0: Tree, staging: Tree, stamp: string, changes: seq<Change>, i: nat, r: Outcome)
    requires i <= |changes|
  {
    && (r.ok <==> !Blocked(t0, changes, i))
    && (r.ok ==> Stage(t0, staging, BackupDir(stamp), changes[..i], changes[..i], r.tree))
    && (r.ok ==> Mirror(t0, BackupDir(stamp), r.tree))
  }

  lemma AppliedOn(t: Tree, staging: Tree, dir: Path, changes: seq<Change>, i: nat)
    requires i < |changes|
    ensures var before := Applied(t, staging, dir, changes[..i]);
            Applied(t, staging, dir, changes[..i + 1]) == if before.ok
                then ApplyOne(before.tree, staging, dir, changes[i]) else before
  {
    ForwardOn(t, changes, i, Applying(staging, dir));
  }

  lemma ReachedNext(t0: Tree, staging: Tree, m: Matcher, stamp: string, changes: seq<Change>, i: nat, before: Outcome)
    requires Ready(t0, staging, m, stamp, changes) && i < |changes| && Reached(t0, staging, stamp, changes, i, before)
    ensures Reached(t0, staging, stamp, changes, i + 1,
                    if before.ok then ApplyOne(before.tree, staging, BackupDir(stamp), changes[i]) else before)
  {
    if before.ok { Step(t0, staging, m, stamp, changes, i, before.tree); }
  }

  lemma {:induction false} AppliedState(t0: Tree, staging: Tree, m: Matcher, stamp: string, changes: seq<Change>,
                                        i: nat, start: Tree)
    requires Ready(t0, staging, m, stamp, changes) && i <= |changes|
    requires start == MkdirAll(t0, BackupDir(stamp), MODE_0755).tree
    ensures Reached(t0, staging, stamp, changes, i, Applied(start, staging, BackupDir(stamp), changes[..i]))
  {
    if i == 0 {
      StartState(t0, staging, m, stamp, changes);
    } else {
      var k: nat := i - 1;
      AppliedState(t0, staging, m, stamp, changes, k, start);
      AppliedOn(start, staging, BackupDir(stamp), changes, k);
      ReachedNext(t0, staging, m, stamp, changes, k, Applied(start, staging, BackupDir(stamp), changes[..k]));
    }
  }

  // ---------------------------------------------------------------- modes

  /** What stays keeps its mode; what is new has mode 0644 as a file and 0755 as a directory. */
  ghost predicate ModesKept(t: Tree, r: Tree) {
    forall p :: p in r ==>
      || (p in t && (t[p].Dir? <==> r[p].Dir?) && r[p].mode == t[p].mode)
      || r[p].mode == if r[p].Dir? then 493 else 420
  }

  lemma {:induction false} MkdirAllModes(t: Tree, p: Path)
    ensures ModesKept(t, MkdirAll(t, p, MODE_0755).tree)
    decreases |p|
  {
    if p !in t && p != [] { MkdirAllModes(t, Parent(p)); }
  }

  lemma PutModes(t: Tree, p: Path, content: string)
    ensures ModesKept(t, Put(t, p, content, MODE_0644).tree)
  {
    if p != [] { MkdirAllModes(t, Parent(p)); }
  }

  lemma ApplyOneModes(t: Tree, staging: Tree, dir: Path, c: Change)
    ensures ModesKept(t, ApplyOne(t, staging, dir, c).tree)
  {
    var content := if c.path in staging && staging[c.path].File? then staging[c.path].content else "";
    if c.kind.Create? {
      PutModes(t, c.path, content);
    } else {
      var saved := CopyFile(t, c.path, Backup(dir, c.path), MODE_0644);
      if c.path in t {
        PutModes(t, Backup(dir, c.path),
                 if t[c.path].Dir? || c.path == Backup(dir, c.path) then "" else t[c.path].content);
      }
      if c.kind.Modify? { PutModes(saved.tree, c.path, content); }
    }
  }

  /** However far the changes get: a file or directory that stays keeps its mode, a new file has
      mode 0644, also the backups, and a new directory 0755. */
  lemma {:induction false} ApplyKeepsModes(t: Tree, staging: Tree, dir: Path, changes: seq<Change>)
    ensures ModesKept(t, Applied(t, staging, dir, changes).tree)
  {
    if changes != [] {
      var init: seq<Change>, last := changes[..|changes| - 1], changes[|changes| - 1];
      ApplyKeepsModes(t, staging, dir, init);
      AppliedOn(t, staging, dir, changes, |changes| - 1);
      assert changes[..|changes|] == changes;
      ApplyOneModes(Applied(t, staging, dir, init).tree, staging, dir, last);
    }
  }

  // ---------------------------------------------------------------- rollback

  function UndoOne(t: Tree, entry: ManifestChange): Outcome {
    if entry.kind.Create? then RemoveIfPresent(t, entry.path)
    else if entry.backupPath == [] then Outcome(false, t)
    else CopyFile(t, entry.backupPath, entry.path, MODE_0644)
  }

  /** The manifest from its last entry to its first, stopping at the first that fails. */
  function RolledBack(t: Tree, manifest: seq<ManifestChange>): Outcome {
    BackwardUntil(t, manifest, UndoOne)
  }

  method Rollback(target: Disk, manifest: seq<ManifestChange>) returns (ok: bool)
    modifies target
    ensures Outcome(ok, target.tree) == RolledBack(old(target.tree), manifest)
  {
    var index := |manifest|;
    assert manifest[..index] == manifest;
    while index > 0
      invariant 0 <= index <= |manifest|
      invariant RolledBack(target.tree, manifest[..index]) == RolledBack(old(target.tree), manifest)
      decreases index
    {
      index := index - 1;
      assert manifest[..index + 1][..index] == manifest[..index];
      var r := UndoOne(target.tree, manifest[index]);
      target.tree := r.tree;
      if !r.ok { return false; }
    }
    ok := true;
  }

  /** Undoing change i fails exactly when it must put a file back where a directory now is. */
  lemma UndoStep(t0: Tree, staging: Tree, m: Matcher, stamp: string, changes: seq<Change>, i: nat, t: Tree)
    returns (r: Outcome)
    requires Ready(t0, staging, m, stamp, changes) && i < |changes|
    requires Stage(t0, staging, BackupDir(stamp), changes[..i + 1], changes, t)
    ensures r == UndoOne(t, ManifestEntry(BackupDir(stamp), changes[i]))
    ensures r.ok <==> !(changes[i].kind.Delete? && Makes(changes, changes[i].path))
    ensures r.ok ==> Stage(t0, staging, BackupDir(stamp), changes[..i], changes, r.tree)
  {
    var dir, c, done := BackupDir(stamp), changes[i], changes[..i];
    var p, b := c.path, Backup(dir, c.path);
    assert changes[..i + 1] == done + [c];
    InPathsSnoc(done, c);
    ChangeFacts(t0, staging, m, stamp, changes, c);
    OutsideBackups(dir, stamp, p);
    NotDoneYet(t0, staging, m, stamp, changes, i);
    if c.kind.Create? {
      RemoveFileSpec(t, p);
    } else {
      assert FileAt(t, b) == FileAt(t0, p);
      PutSpec(t, p, t0[p].content, MODE_0644);
      forall q | Above(q, p) ensures DirAt(t0, q) && DirAt(t, q) { AncestorIsDir(t0, p, q); }
      assert Makes(changes, p) && c.kind.Modify? ==> false by {
        if Makes(changes, p) {
          var d :| d in changes && d.kind.Create? && Above(p, d.path);
          ChangeFacts(t0, staging, m, stamp, changes, d);
          AncestorIsDir(staging, d.path, p);
        }
      }
    }
    r := UndoOne(t, ManifestEntry(dir, c));
    if r.ok {
      assert forall d :: d in done && !d.kind.Create? ==> d in changes[..i + 1];
      assert forall d :: AtOrAbove(dir, Backup(dir, d)) && Backup(dir, d) != p;
    }
  }

  ghost predicate Stuck(changes: seq<Change>, i: nat)
    requires i <= |changes|
  {
    exists k :: 0 <= k < i && changes[k].kind.Delete? && Makes(changes, changes[k].path)
  }

  lemma StuckSnoc(changes: seq<Change>, k: nat)
    requires k < |changes|
    ensures Stuck(changes, k + 1) <==> Stuck(changes, k) || (changes[k].kind.Delete? && Makes(changes, changes[k].path))
  {
  }

  /** The manifest holds the entries of the first i changes. */
  ghost predicate ListsFirst(dir: Path, changes: seq<Change>, i: nat, manifest: seq<ManifestChange>) {
    i <= |changes| && |manifest| == i && forall k :: 0 <= k < i ==> manifest[k] == ManifestEntry(dir, changes[k])
  }

  lemma ListsFewer(dir: Path, changes: seq<Change>, i: nat, manifest: seq<ManifestChange>)
    requires ListsFirst(dir, changes, i + 1, manifest)
    ensures ListsFirst(dir, changes, i, manifest[..i]) && manifest[i] == ManifestEntry(dir, changes[i])
  {
  }

  lemma RolledBackLast(t: Tree, manifest: seq<ManifestChange>, i: nat, r: Outcome)
    requires |manifest| == i + 1 && r == UndoOne(t, manifest[i])
    ensures RolledBack(t, manifest) == if r.ok then RolledBack(r.tree, manifest[..i]) else r
  {
  }

  lemma {:induction false} UndoAll(t0: Tree, staging: Tree, m: Matcher, stamp: string, changes: seq<Change>, i: nat,
                                   t: Tree, manifest: seq<ManifestChange>)
    returns (r: Outcome)
    requires Ready(t0, staging, m, stamp, changes) && i <= |changes|
    requires Stage(t0, staging, BackupDir(stamp), changes[..i], changes, t)
    requires ListsFirst(BackupDir(stamp), changes, i, manifest)
    ensures r == RolledBack(t, manifest)
    ensures r.ok <==> !Stuck(changes, i)
    ensures r.ok ==> Stage(t0, staging, BackupDir(stamp), [], changes, r.tree)
    decreases i
  {
    if i == 0 {
      assert changes[..i] == [];
      r := Outcome(true, t);
    } else {
      var k: nat := i - 1;
      assert changes[..i] == changes[..k + 1];
      StuckSnoc(changes, k);
      ListsFewer(BackupDir(stamp), changes, k, manifest);
      r := UndoStep(t0, staging, m, stamp, changes, k, t);
      RolledBackLast(t, manifest, k, r);
      if r.ok {
        r := UndoAll(t0, staging, m, stamp, changes, k, r.tree, manifest[..k]);
      }
    }
  }

  // ---------------------------------------------------------------- main results

  lemma ManifestKeepsStage(t0: Tree, staging: Tree, dir: Path, done: seq<Change>, t: Tree, text: string)
    requires Stage(t0, staging, dir, done, done, t) && Mirror(t0, dir, t)
    ensures var r := WriteFile(t, ManifestFile(dir), text, MODE_0644);
            r.ok && Stage(t0, staging, dir, done, done, r.tree)
  {
    var file := ManifestFile(dir);
    assert Parent(file) == dir && AtOrAbove(dir, file);
    forall x ensures Backup(dir, x) != file {
      assert Backup(dir, x)[|dir|] == "original" && file[|dir|] == "rollback-manifest.json";
    }
  }

  /** The result of applyChanges and the state it leaves. */
  lemma ApplyAllState(t0: Tree, staging: Tree, m: Matcher, stamp: string, changes: seq<Change>, text: string)
    requires Ready(t0, staging, m, stamp, changes)
    ensures var dir := BackupDir(stamp); var r := ApplyAll(t0, staging, dir, changes, text);
            && (r.ok <==> !Blocked(t0, changes, |changes|))
            && (r.ok ==> Stage(t0, staging, dir, changes, changes, r.tree))
  {
    var dir := BackupDir(stamp);
    var start := MkdirAll(t0, dir, MODE_0755);
    StartState(t0, staging, m, stamp, changes);
    AppliedState(t0, staging, m, stamp, changes, |changes|, start.tree);
    assert changes[..|changes|] == changes;
    var applied := Applied(start.tree, staging, dir, changes);
    if applied.ok {
      ManifestKeepsStage(t0, staging, dir, changes, applied.tree, text);
    }
  }

  /** An apply that fails has made exactly the changes before the first creation on a directory, in the
      target as in the backups, and leaves no manifest of its own to undo them with. */
  lemma FailedApplyLeaves(t0: Tree, staging: Tree, m: Matcher, stamp: string, changes: seq<Change>, text: string,
                          k: nat)
    requires Ready(t0, staging, m, stamp, changes) && k < |changes| && !Blocked(t0, changes, k)
    requires changes[k].kind.Create? && DirAt(t0, changes[k].path)
    ensures var dir := BackupDir(stamp); var r := ApplyAll(t0, staging, dir, changes, text);
            && !r.ok && Stage(t0, staging, dir, changes[..k], changes[..k], r.tree)
            && FileAt(r.tree, ManifestFile(dir)) == FileAt(t0, ManifestFile(dir))
  {
    var dir := BackupDir(stamp);
    var start := MkdirAll(t0, dir, MODE_0755).tree;
    StartState(t0, staging, m, stamp, changes);
    AppliedState(t0, staging, m, stamp, changes, k, start);
    AppliedOn(start, staging, dir, changes, k);
    Step(t0, staging, m, stamp, changes, k, Applied(start, staging, dir, changes[..k]).tree);
    ForwardStops(start, changes, k + 1, Applying(staging, dir));
  }

  lemma AppliedFiles(t0: Tree, staging: Tree, m: Matcher, stamp: string, changes: seq<Change>, t: Tree, p: Path)
    requires Ready(t0, staging, m, stamp, changes)
    requires Stage(t0, staging, BackupDir(stamp), changes, changes, t)
    ensures Skip(m, p) && !AtOrAbove(BackupDir(stamp), p) ==> FileAt(t, p) == FileAt(t0, p)
    ensures !Skip(m, p) ==> FileAt(t, p) == FileAt(staging, p)
  {
    var dir := BackupDir(stamp);
    if InPaths(changes, p) {
      var c :| c in changes && c.path == p;
      ChangeFacts(t0, staging, m, stamp, changes, c);
      OutsideBackups(dir, stamp, p);
    } else if !Skip(m, p) {
      if p != [] && p[0] == BACKUPS { BackupsSkipped(m, p); }
      assert ChangeFor(Snapshot(t0, m), Snapshot(staging, m), p).None?;
    }
  }

  lemma SameSnapshot(a: Tree, b: Tree, m: Matcher)
    requires forall p :: !Skip(m, p) ==> FileAt(a, p) == FileAt(b, p)
    ensures Snapshot(a, m) == Snapshot(b, m)
  {
    forall p ensures p in Snapshot(a, m) <==> p in Snapshot(b, m) {
      assert !Skip(m, p) ==> FileAt(a, p) == FileAt(b, p);
    }
    assert Snapshot(a, m).Keys == Snapshot(b, m).Keys;
  }

  /** applyChanges succeeds exactly when it creates no file where the target has a directory;
      it then makes every compared file equal to the staged one, so that looking again finds
      no difference, and leaves the files that are not compared as they were. */
  lemma ApplySynchronises(t0: Tree, staging: Tree, m: Matcher, stamp: string, changes: seq<Change>, text: string)
    requires Ready(t0, staging, m, stamp, changes)
    ensures var r := ApplyAll(t0, staging, BackupDir(stamp), changes, text);
            && (r.ok <==> forall c :: c in changes && c.kind.Create? ==> !DirAt(t0, c.path))
            && (r.ok ==> Snapshot(r.tree, m) == Snapshot(staging, m))
            && (r.ok ==> forall again :: IsDiff(Snapshot(r.tree, m), Snapshot(staging, m), again) ==> again == [])
            && (r.ok ==> forall p :: Skip(m, p) && !AtOrAbove(BackupDir(stamp), p) ==>
                FileAt(r.tree, p) == FileAt(t0, p))
  {
    var dir := BackupDir(stamp);
    ApplyAllState(t0, staging, m, stamp, changes, text);
    var r := ApplyAll(t0, staging, dir, changes, text);
    if Blocked(t0, changes, |changes|) {
      var k :| 0 <= k < |changes| && changes[k].kind.Create? && DirAt(t0, changes[k].path);
      assert changes[k] in changes;
    }
    if r.ok {
      forall p
        ensures Skip(m, p) && !AtOrAbove(dir, p) ==> FileAt(r.tree, p) == FileAt(t0, p)
        ensures !Skip(m, p) ==> FileAt(r.tree, p) == FileAt(staging, p)
      {
        AppliedFiles(t0, staging, m, stamp, changes, r.tree, p);
      }
      SameSnapshot(r.tree, staging, m);
      forall again | IsDiff(Snapshot(r.tree, m), Snapshot(staging, m), again) ensures again == [] {
        NoDiffIffEqual(Snapshot(r.tree, m), Snapshot(staging, m), again);
      }
    }
  }

  /** After a successful apply, Rollback succeeds exactly when no deleted file has been replaced
      by a directory holding created files; it then gives every file outside the backup
      directory its original content, compared or not. */
  lemma RollbackRestores(t0: Tree, staging: Tree, m: Matcher, stamp: string, changes: seq<Change>, text: string)
    requires Ready(t0, staging, m, stamp, changes)
    requires ApplyAll(t0, staging, BackupDir(stamp), changes, text).ok
    ensures var applied := ApplyAll(t0, staging, BackupDir(stamp), changes, text).tree;
            var r := RolledBack(applied, ManifestFor(BackupDir(stamp), changes));
            && (r.ok <==> forall c, d :: c in changes && d in changes && c.kind.Delete? && d.kind.Create? ==>
                !Above(c.path, d.path))
            && (r.ok ==> forall p :: !AtOrAbove(BackupDir(stamp), p) ==> FileAt(r.tree, p) == FileAt(t0, p))
  {
    var dir := BackupDir(stamp);
    ApplyAllState(t0, staging, m, stamp, changes, text);
    assert changes[..|changes|] == changes;
    var applied := ApplyAll(t0, staging, dir, changes, text).tree;
    var r := UndoAll(t0, staging, m, stamp, changes, |changes|, applied, ManifestFor(dir, changes));
    if Stuck(changes, |changes|) {
      var k :| 0 <= k < |changes| && changes[k].kind.Delete? && Makes(changes, changes[k].path);
      assert changes[k] in changes;
    } else {
      forall c, d | c in changes && d in changes && c.kind.Delete? && d.kind.Create? ensures !Above(c.path, d.path) {
        var k :| 0 <= k < |changes| && changes[k] == c;
        assert !Makes(changes, c.path);
      }
    }
  }

  const OLD_TREE: Tree := map[[] := Dir(493), ["a"] := File("old", 420)]
  const NEW_TREE: Tree := map[[] := Dir(493), ["a"] := Dir(493), ["a", "b"] := File("new", 420)]
  const PLAIN := Matcher({BACKUPS}, [])
  const SWAP := [Change(["a"], Delete, 0), Change(["a", "b"], Create, 3)]

  lemma SwapCompared()
    ensures !Skip(PLAIN, ["a"]) && !Skip(PLAIN, ["a", "b"])
  {
    SkipOrdinary(PLAIN, ["a"]);
    SkipOrdinary(PLAIN, ["a", "b"]);
  }

  lemma SwapSnapshots()
    ensures Snapshot(OLD_TREE, PLAIN) == map[["a"] := "old"]
    ensures Snapshot(NEW_TREE, PLAIN) == map[["a", "b"] := "new"]
  {
    SwapCompared();
    OnlyFile(OLD_TREE, PLAIN, ["a"]);
    OnlyFile(NEW_TREE, PLAIN, ["a", "b"]);
  }

  lemma OnlyFile(t: Tree, m: Matcher, p: Path)
    requires p in t && t[p].File? && !Skip(m, p) && forall q :: q in t && t[q].File? ==> q == p
    ensures Snapshot(t, m) == map[p := t[p].content]
  {
  }

  lemma SwapInOrder()
    ensures PathLessEq(SWAP[0], SWAP[1])
  {
    assert Join(["a"], '/') == "a" && Join(["a", "b"], '/') == "a" + ['/'] + Join(["b"], '/');
    PrefixLessEq(Join(["a"], '/'), Join(["a", "b"], '/'));
  }

  lemma SwapIsDiff()
    ensures IsDiff(map[["a"] := "old"], map[["a", "b"] := "new"], SWAP)
  {
    var before, after: map<Path, string> := map[["a"] := "old"], map[["a", "b"] := "new"];
    SwapInOrder();
    forall p ensures ChangeFor(before, after, p) ==
                     if p == ["a"] then Some(SWAP[0]) else if p == ["a", "b"] then Some(SWAP[1]) else None {}
    assert SWAP[0] in SWAP && SWAP[1] in SWAP;
  }

  lemma SwapIsReady()
    ensures Ready(OLD_TREE, NEW_TREE, PLAIN, "", SWAP)
  {
    assert Parent(["a", "b"]) == ["a"] && Parent(["a"]) == [];
    SwapSnapshots();
    SwapIsDiff();
  }

  /** A file replaced by a directory of the same name cannot be rolled back. */
  lemma FileReplacedByDirectory()
    ensures Ready(OLD_TREE, NEW_TREE, PLAIN, "", SWAP)
    ensures var applied := ApplyAll(OLD_TREE, NEW_TREE, BackupDir(""), SWAP, "");
            applied.ok && !RolledBack(applied.tree, ManifestFor(BackupDir(""), SWAP)).ok
  {
    SwapIsReady();
    ApplySynchronises(OLD_TREE, NEW_TREE, PLAIN, "", SWAP, "");
    assert forall c :: c in SWAP && c.kind.Create? ==> c == SWAP[1];
    assert !DirAt(OLD_TREE, SWAP[1].path);
    RollbackRestores(OLD_TREE, NEW_TREE, PLAIN, "", SWAP, "");
    assert SWAP[0] in SWAP && SWAP[1] in SWAP && Above(SWAP[0].path, SWAP[1].path);
  }
}
