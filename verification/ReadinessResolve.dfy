/** internal/readinessresolve: repairing the permissions of a list of targets, logging each
    change, and undoing the log from its last entry. */
module ReadinessResolve {
  import opened Wrappers
  import opened FileTree
  import opened Access
  import opened Steps

  const MODE_0711: nat := 457

  // ---------------------------------------------------------------- repair

  datatype Kind = DirKind | FileKind | OtherKind

  datatype Target = Target(path: Path, kind: Kind, access: string, mode: nat)

  /** The part of a PermissionChange that the local undo reads. */
  datatype Entry = Entry(path: Path, beforeExists: bool, beforeMode: nat)

  datatype Repair = Repair(ok: bool, tree: Tree, changes: seq<Entry>)

  predicate Declares(declared: seq<Target>, dir: Path) {
    exists i :: 0 <= i < |declared| && declared[i].kind.DirKind? && declared[i].path == dir
  }

  /** fileParentSearchPath: the parent to open up, unless the policy itself sets that directory. */
  function ParentToSearch(target: Target, declared: seq<Target>): Option<Path> {
    if !target.kind.FileKind? || |target.path| <= 1 || Declares(declared, Parent(target.path)) then None
    else Some(Parent(target.path))
  }

  /** canCreateMissingReadFileTarget, and files to be written are always created. */
  predicate MayCreate(target: Target, declared: seq<Target>) {
    || target.access == "write"
    || (&& target.access == "read" && |target.path| > 1
        && exists i :: && 0 <= i < |declared| && declared[i].kind.DirKind? && declared[i].access in {"", "write"}
                       && declared[i].path == Parent(target.path))
  }

  function EntryFor(p: Path, before: Seen): Entry {
    Entry(p, before.Found?, if before.Found? then Perm(before.node.mode) else 0)
  }

  function RepairDir(t: Tree, p: Path, mode: nat): Repair {
    if Stat(t, p).Denied? then Repair(false, t, [])
    else
      var made := MakeDirs(t, p, mode);
      if !made.ok then Repair(false, made.tree, [])
      else
        var changed := SetMode(made.tree, p, mode);
        if changed.ok then Repair(true, changed.tree, [EntryFor(p, Stat(t, p))]) else Repair(false, changed.tree, [])
  }

  function OpenParent(t: Tree, parent: Option<Path>): Repair {
    if parent.None? then Repair(true, t, [])
    else if Stat(t, parent.value).Denied? then Repair(false, t, [])
    else
      var changed := SetMode(t, parent.value, MODE_0711);
      if changed.ok then Repair(true, changed.tree, [EntryFor(parent.value, Stat(t, parent.value))])
      else Repair(false, changed.tree, [])
  }

  function RepairEntry(t: Tree, p: Path, mayCreate: bool, mode: nat): Repair {
    var before := Stat(t, p);
    if before.Denied? || (before.Missing? && !mayCreate) then Repair(false, t, [])
    else
      var there := if before.Missing? then CreateFile(t, p, mode) else Outcome(before.node.File?, t);
      if !there.ok then Repair(false, there.tree, [])
      else
        var changed := SetMode(there.tree, p, mode);
        if changed.ok then Repair(true, changed.tree, [EntryFor(p, before)]) else Repair(false, changed.tree, [])
  }

  /** repairLocalPermissions: a failure returns no changes, whatever it has already done. */
  function RepairOne(t: Tree, target: Target, declared: seq<Target>): Repair {
    match target.kind
    case DirKind => RepairDir(t, target.path, target.mode)
    case FileKind =>
      var search := OpenParent(t, ParentToSearch(target, declared));
      if !search.ok then search
      else
        var file := RepairEntry(search.tree, target.path, MayCreate(target, declared), target.mode);
        if file.ok then Repair(true, file.tree, search.changes + file.changes) else Repair(false, file.tree, [])
    case OtherKind => Repair(false, t, [])
  }

  /** The targets in order; the first failure ends the repair. */
  function RepairAll(t: Tree, targets: seq<Target>, declared: seq<Target>): Repair {
    if targets == [] then Repair(true, t, [])
    else
      var before := RepairAll(t, targets[..|targets| - 1], declared);
      if !before.ok then before
      else
        var last := RepairOne(before.tree, targets[|targets| - 1], declared);
        Repair(last.ok, last.tree, before.changes + last.changes)
  }

  method RepairLocalPermissions(disk: Disk, target: Target, declared: seq<Target>)
    returns (ok: bool, changes: seq<Entry>)
    modifies disk
    ensures Repair(ok, disk.tree, changes) == RepairOne(old(disk.tree), target, declared)
  {
    changes := [];
    match target.kind {
      case DirKind =>
        var before := Stat(disk.tree, target.path);
        if before.Denied? { return false, []; }
        var made := MakeDirs(disk.tree, target.path, target.mode);
        disk.tree := made.tree;
        if !made.ok { return false, []; }
        var changed := SetMode(disk.tree, target.path, target.mode);
        disk.tree := changed.tree;
        if !changed.ok { return false, []; }
        changes := changes + [EntryFor(target.path, before)];
      case FileKind =>
        var parent := ParentToSearch(target, declared);
        if parent.Some? {
          var before := Stat(disk.tree, parent.value);
          if before.Denied? { return false, []; }
          var search := SetMode(disk.tree, parent.value, MODE_0711);
          disk.tree := search.tree;
          if !search.ok { return false, []; }
          changes := changes + [EntryFor(parent.value, before)];
        }
        var before := Stat(disk.tree, target.path);
        if before.Denied? || (before.Missing? && !MayCreate(target, declared)) { return false, []; }
        if before.Missing? {
          var created := CreateFile(disk.tree, target.path, target.mode);
          disk.tree := created.tree;
          if !created.ok { return false, []; }
        } else if before.node.Dir? {
          return false, [];
        }
        var changed := SetMode(disk.tree, target.path, target.mode);
        disk.tree := changed.tree;
        if !changed.ok { return false, []; }
        changes := changes + [EntryFor(target.path, before)];
      case OtherKind =>
        return false, [];
    }
    ok := true;
  }

  // ---------------------------------------------------------------- undo

  /** rollbackLocalPermissionChange. */
  function UndoEntry(t: Tree, e: Entry): Outcome {
    if !e.beforeExists then RemoveTree(t, e.path) else SetMode(t, e.path, e.beforeMode)
  }

  /** rollbackPermissionChanges: last entry first, going on after an error. */
  function UndoAll(t: Tree, changes: seq<Entry>): Outcome {
    Backward(t, changes, UndoEntry)
  }

  method RollbackPermissionChanges(disk: Disk, changes: seq<Entry>) returns (ok: bool)
    modifies disk
    ensures Outcome(ok, disk.tree) == UndoAll(old(disk.tree), changes)
  {
    ok := true;
    var i := |changes|;
    assert changes[..i] == changes;
    while i > 0
      invariant 0 <= i <= |changes|
      invariant var rest := UndoAll(disk.tree, changes[..i]);
                UndoAll(old(disk.tree), changes) == Outcome(ok && rest.ok, rest.tree)
      decreases i
    {
      i := i - 1;
      assert changes[..i + 1][..i] == changes[..i];
      var r := UndoEntry(disk.tree, changes[i]);
      disk.tree := r.tree;
      ok := ok && r.ok;
    }
  }

  lemma UndoConcat(t: Tree, a: seq<Entry>, b: seq<Entry>)
    ensures var last := UndoAll(t, b); var rest := UndoAll(last.tree, a);
            UndoAll(t, a + b) == Outcome(last.ok && rest.ok, rest.tree)
  {
    BackwardConcat(t, a, b, UndoEntry);
  }

  // ---------------------------------------------------------------- one target

  /** Putting the permission bits back is exact unless bits above them were set. */
  lemma ModeUndone(t: Tree, p: Path, mode: nat)
    requires Closed(t) && SetMode(t, p, mode).ok
    ensures var r := SetMode(SetMode(t, p, mode).tree, p, Perm(t[p].mode));
            && r.ok && Closed(r.tree)
            && (r.tree == t <==> t[p].mode < 512)
            && (forall q :: q != p ==> (q in r.tree <==> q in t) && (q in t ==> r.tree[q] == t[q]))
            && p in r.tree && r.tree[p].mode == Perm(t[p].mode)
  {
    SetModeSpec(t, p, mode);
    SetModeSpec(SetMode(t, p, mode).tree, p, Perm(t[p].mode));
  }

  lemma NewLeafUndone(t: Tree, p: Path, node: Node, t2: Tree)
    requires Closed(t) && p != [] && p !in t && CanEdit(t, Parent(p)) && Reachable(t, Parent(p))
    requires t2 == t[p := node]
    ensures RemoveTree(t2, p) == Outcome(true, t)
  {
    ReachableChild(t2, p);
    forall q | Above(q, Parent(p)) ensures CanSearch(t2, q) {}
    forall q | q in t2 ensures !Above(p, q) {
      if q != p && Above(p, q) { AncestorIsDir(t, q, p); }
    }
    RemoveLeaf(t2, p);
    assert t2 - {p} == t;
  }

  /** The undo of a one-entry log. */
  lemma UndoSingle(t: Tree, e: Entry)
    ensures UndoAll(t, [e]) == UndoEntry(t, e)
  {
    var last := UndoEntry(t, e);
    assert [e][..0] == [] && Backward(last.tree, [], UndoEntry) == Outcome(true, last.tree);
  }

  /** A repaired directory comes back exactly when only the logged directory was made and no
      bit above the permission bits was lost. */
  lemma DirUndone(t: Tree, p: Path, mode: nat)
    requires Closed(t) && RepairDir(t, p, mode).ok
    ensures var r := RepairDir(t, p, mode);
            && Closed(r.tree) && DirAt(r.tree, p) && r.tree[p].mode == mode
            && (forall q :: q in t ==> q in r.tree && (q != p ==> r.tree[q] == t[q]))
            && (forall q :: q in r.tree && q !in t ==> r.tree[q].mode == mode)
            && (UndoAll(r.tree, r.changes) == Outcome(true, t)
                <==> if p in t then t[p].mode < 512 else Parent(p) in t)
  {
    var made := MakeDirs(t, p, mode);
    var r := RepairDir(t, p, mode);
    MakeDirsSpec(t, p, mode);
    SetModeSpec(made.tree, p, mode);
    StatSpec(t, p);
    UndoSingle(r.tree, r.changes[0]);
    if p in t {
      ModeUndone(t, p, mode);
      assert Stat(t, p).Found?;
    } else if Parent(p) in t {
      assert r.tree == t[p := Dir(mode)];
      ReachableChild(made.tree, p);
      forall q | Above(q, Parent(p)) ensures CanSearch(t, q) { AncestorIsDir(t, Parent(p), q); }
      NewLeafUndone(t, p, Dir(mode), r.tree);
    } else {
      assert Parent(p) in r.tree && !AtOrAbove(p, Parent(p));
      assert Parent(p) in UndoEntry(r.tree, r.changes[0]).tree;
    }
  }

  lemma EntryUndone(t: Tree, p: Path, mayCreate: bool, mode: nat)
    requires Closed(t) && RepairEntry(t, p, mayCreate, mode).ok
    ensures var r := RepairEntry(t, p, mayCreate, mode); var u := UndoAll(r.tree, r.changes);
            && Closed(r.tree) && FileAt(r.tree, p).Some? && r.tree[p].mode == mode
            && (forall q :: q in t ==> q in r.tree && (q != p ==> r.tree[q] == t[q]))
            && (forall q :: q in r.tree && q !in t ==> q == p)
            && u.ok && Closed(u.tree)
            && (u.tree == t <==> p in t ==> t[p].mode < 512)
            && (forall q :: q != p ==> (q in u.tree <==> q in t) && (q in t ==> u.tree[q] == t[q]))
            && (p in t ==> p in u.tree && u.tree[p].mode == Perm(t[p].mode))
  {
    var r := RepairEntry(t, p, mayCreate, mode);
    StatSpec(t, p);
    UndoSingle(r.tree, r.changes[0]);
    if Stat(t, p).Found? {
      SetModeSpec(t, p, mode);
      ModeUndone(t, p, mode);
    } else {
      StatSpec(t, Parent(p));
      var there := CreateFile(t, p, mode).tree;
      assert Closed(there);
      SetModeSpec(there, p, mode);
      NewLeafUndone(t, p, File("", mode), r.tree);
    }
  }

  lemma ParentUndone(t: Tree, parent: Option<Path>)
    requires Closed(t) && OpenParent(t, parent).ok
    ensures var r := OpenParent(t, parent);
            && Closed(r.tree) && r.tree.Keys == t.Keys
            && (forall q :: q in t && Some(q) != parent ==> r.tree[q] == t[q])
            && (parent.Some? ==> parent.value in t && r.tree[parent.value].mode == MODE_0711)
  {
    if parent.Some? { SetModeSpec(t, parent.value, MODE_0711); }
  }

  /** What one target needs for its repair to be undone without a trace. */
  predicate Faithful(t: Tree, target: Target, declared: seq<Target>) {
    var p, parent := target.path, ParentToSearch(target, declared);
    && (p in t ==> t[p].mode < 512)
    && (p !in t && target.kind.DirKind? ==> p != [] && Parent(p) in t)
    && (parent.Some? && parent.value in t ==> t[parent.value].mode < 512)
  }

  lemma UndoPair(t: Tree, a: Entry, b: Entry)
    ensures var last := UndoEntry(t, b); var first := UndoEntry(last.tree, a);
            UndoAll(t, [a] + [b]) == Outcome(last.ok && first.ok, first.tree)
  {
    UndoConcat(t, [a], [b]);
    UndoSingle(t, b);
    UndoSingle(UndoEntry(t, b).tree, a);
  }

  lemma FileRepaired(t: Tree, target: Target, declared: seq<Target>)
    requires Closed(t) && target.kind.FileKind? && RepairOne(t, target, declared).ok
    ensures var r := RepairOne(t, target, declared).tree;
              var p, parent := target.path, ParentToSearch(target, declared);
            && Closed(r) && p in r && p != [] && r[p].mode == target.mode
            && (forall q :: q in t ==> q in r && (q != p && Some(q) != parent ==> r[q] == t[q]))
            && (forall q :: q in r && q !in t ==> q == p)
            && (parent.Some? ==> parent.value in r && r[parent.value].mode == MODE_0711)
  {
    var search := OpenParent(t, ParentToSearch(target, declared));
    ParentUndone(t, ParentToSearch(target, declared));
    EntryUndone(search.tree, target.path, MayCreate(target, declared), target.mode);
  }

  lemma FileAndParentUndone(t: Tree, target: Target, declared: seq<Target>)
    requires Closed(t) && target.kind.FileKind? && RepairOne(t, target, declared).ok
    requires ParentToSearch(target, declared).Some?
    ensures var r := RepairOne(t, target, declared);
            UndoAll(r.tree, r.changes) == Outcome(true, t) <==> Faithful(t, target, declared)
  {
    var p, parent := target.path, ParentToSearch(target, declared);
    var search := OpenParent(t, parent);
    ParentUndone(t, parent);
    EntryUndone(search.tree, p, MayCreate(target, declared), target.mode);
    var file := RepairEntry(search.tree, p, MayCreate(target, declared), target.mode);
    SetModeSpec(t, parent.value, MODE_0711);
    StatSpec(t, parent.value);
    UndoPair(file.tree, search.changes[0], file.changes[0]);
    UndoSingle(file.tree, file.changes[0]);
    ParentComesBack(t, parent.value, search.tree, p, UndoAll(file.tree, file.changes).tree);
  }

  lemma FileUndone(t: Tree, target: Target, declared: seq<Target>)
    requires Closed(t) && target.kind.FileKind? && RepairOne(t, target, declared).ok
    ensures var r := RepairOne(t, target, declared); var p, parent := target.path, ParentToSearch(target, declared);
            && Closed(r.tree) && p in r.tree && r.tree[p].mode == target.mode
            && (forall q :: q in t ==> q in r.tree && (q != p && Some(q) != parent ==> r.tree[q] == t[q]))
            && (forall q :: q in r.tree && q !in t ==> q == p)
            && (parent.Some? ==> parent.value in r.tree && r.tree[parent.value].mode == MODE_0711)
            && (UndoAll(r.tree, r.changes) == Outcome(true, t) <==> Faithful(t, target, declared))
  {
    FileRepaired(t, target, declared);
    if ParentToSearch(target, declared).Some? {
      FileAndParentUndone(t, target, declared);
    } else {
      EntryUndone(t, target.path, MayCreate(target, declared), target.mode);
      var file := RepairEntry(t, target.path, MayCreate(target, declared), target.mode);
      assert RepairOne(t, target, declared).changes == file.changes;
    }
  }

  /** After the file is undone the parent still has mode 0711, and its own undo works. */
  lemma ParentComesBack(t: Tree, d: Path, search: Tree, p: Path, u: Tree)
    requires Closed(t) && Closed(u) && d in t && Reachable(t, d) && p != [] && d == Parent(p)
    requires search == SetMode(t, d, MODE_0711).tree && SetMode(t, d, MODE_0711).ok
    requires forall q :: q != p ==> (q in u <==> q in search) && (q in search ==> u[q] == search[q])
    requires p in t <==> p in u
    requires p in t ==> u[p].mode == Perm(t[p].mode) && (u == search <==> t[p].mode < 512)
    requires p !in t ==> u == search
    ensures var r := SetMode(u, d, Perm(t[d].mode));
            && r.ok
            && (r.tree == t <==> t[d].mode < 512 && (p in t ==> t[p].mode < 512))
  {
    SetModeSpec(t, d, MODE_0711);
    SetModeSpec(u, d, Perm(t[d].mode));
    assert forall q :: Above(q, d) ==> q != p && q != d;
    if p in t { assert u[p].mode < 512; }
    if t[d].mode < 512 && (p in t ==> t[p].mode < 512) {
      ModeUndone(t, d, MODE_0711);
    }
  }

  /** Undoing the log of one repaired target gives the tree back exactly when the target is
      faithful: nothing above it was missing and no touched path had bits above 0777. */
  lemma OneTargetUndone(t: Tree, target: Target, declared: seq<Target>)
    requires Closed(t) && RepairOne(t, target, declared).ok
    ensures var r := RepairOne(t, target, declared);
            UndoAll(r.tree, r.changes) == Outcome(true, t) <==> Faithful(t, target, declared)
  {
    if target.kind.DirKind? {
      DirUndone(t, target.path, target.mode);
    } else {
      FileUndone(t, target, declared);
    }
  }

  // ---------------------------------------------------------------- the whole list

  /** Checked before any repair: a directory target that is missing has a parent in the tree or
      made by an earlier target, and no touched path has bits above 0777. */
  ghost predicate ParentsFirst(t: Tree, targets: seq<Target>, declared: seq<Target>) {
    && (forall i :: 0 <= i < |targets| && targets[i].kind.DirKind? && targets[i].path !in t ==>
          targets[i].path != [] && (Parent(targets[i].path) in t || MadeBefore(targets[..i], Parent(targets[i].path))))
    && (forall i :: 0 <= i < |targets| ==> targets[i].mode < 512)
    && (forall q :: q in t && (exists i :: 0 <= i < |targets| && Touches(targets[i], declared, q)) ==> t[q].mode < 512)
  }

  ghost predicate MadeBefore(targets: seq<Target>, p: Path) {
    exists i :: 0 <= i < |targets| && targets[i].kind.DirKind? && targets[i].path == p
  }

  predicate Touches(target: Target, declared: seq<Target>, q: Path) {
    q == target.path || Some(q) == ParentToSearch(target, declared)
  }

  /** What a list of successful repairs keeps. */
  ghost predicate Grown(t0: Tree, targets: seq<Target>, t: Tree) {
    && Closed(t)
    && (forall q :: q in t0 ==> q in t)
    && (forall q :: q in t ==> t[q].mode < 512 || (q in t0 && t[q].mode == t0[q].mode))
    && (forall p :: MadeBefore(targets, p) ==> p in t)
  }

  lemma MadeBeforeSnoc(targets: seq<Target>, i: nat)
    requires i < |targets|
    ensures forall q :: MadeBefore(targets[..i + 1], q) ==>
              MadeBefore(targets[..i], q) || (q == targets[i].path && targets[i].kind.DirKind?)
  {
    forall q | MadeBefore(targets[..i + 1], q)
      ensures MadeBefore(targets[..i], q) || (q == targets[i].path && targets[i].kind.DirKind?)
    {
      var k :| 0 <= k < i + 1 && targets[..i + 1][k].kind.DirKind? && targets[..i + 1][k].path == q;
      if k < i { assert targets[..i][k].path == q; }
    }
  }

  lemma TouchedModes(t0: Tree, targets: seq<Target>, i: nat, declared: seq<Target>, t: Tree)
    requires i < |targets| && ParentsFirst(t0, targets, declared) && Grown(t0, targets[..i], t)
    ensures Faithful(t, targets[i], declared)
  {
    var target := targets[i];
    var p, parent := target.path, ParentToSearch(target, declared);
    forall q | Touches(target, declared, q) && q in t ensures t[q].mode < 512 {
      if q in t0 { assert exists k :: 0 <= k < |targets| && Touches(targets[k], declared, q); }
    }
    assert Touches(target, declared, p) && (parent.Some? ==> Touches(target, declared, parent.value));
  }

  /** What one successful repair does, whatever the kind of target. */
  ghost predicate Repaired(t: Tree, target: Target, declared: seq<Target>, r: Tree) {
    && Closed(r) && target.path in r
    && (forall q :: q in t ==> q in r)
    && (forall q :: q in r && q in t ==> r[q].mode == t[q].mode || Touches(target, declared, q))
    && (forall q :: q in r && (q !in t || Touches(target, declared, q)) ==> r[q].mode < 512)
  }

  lemma RepairOneSpec(t: Tree, target: Target, declared: seq<Target>)
    requires Closed(t) && target.mode < 512 && RepairOne(t, target, declared).ok
    ensures Repaired(t, target, declared, RepairOne(t, target, declared).tree)
  {
    if target.kind.DirKind? {
      DirUndone(t, target.path, target.mode);
    } else {
      FileUndone(t, target, declared);
    }
  }

  lemma GrownStep(t0: Tree, targets: seq<Target>, i: nat, declared: seq<Target>, t: Tree, r: Tree)
    requires i < |targets| && Grown(t0, targets[..i], t) && Repaired(t, targets[i], declared, r)
    ensures Grown(t0, targets[..i + 1], r)
  {
    MadeBeforeSnoc(targets, i);
  }

  lemma {:induction false} RepairGrows(t0: Tree, targets: seq<Target>, i: nat, declared: seq<Target>)
    requires Closed(t0) && i <= |targets| && ParentsFirst(t0, targets, declared)
    requires RepairAll(t0, targets[..i], declared).ok
    ensures var r := RepairAll(t0, targets[..i], declared);
            Grown(t0, targets[..i], r.tree) && UndoAll(r.tree, r.changes) == Outcome(true, t0)
  {
    if i > 0 {
      assert targets[..i][..i - 1] == targets[..i - 1];
      var before := RepairAll(t0, targets[..i - 1], declared);
      RepairGrows(t0, targets, i - 1, declared);
      var last := RepairOne(before.tree, targets[i - 1], declared);
      TouchedModes(t0, targets, i - 1, declared, before.tree);
      RepairOneSpec(before.tree, targets[i - 1], declared);
      GrownStep(t0, targets, i - 1, declared, before.tree, last.tree);
      OneTargetUndone(before.tree, targets[i - 1], declared);
      UndoConcat(last.tree, before.changes, last.changes);
    }
  }

  /** For any list, with duplicates and shared parents: undoing the log in reverse meets no
      error and gives back every path, its content and its mode. */
  lemma UndoRestoresAll(t0: Tree, targets: seq<Target>, declared: seq<Target>)
    requires Closed(t0) && ParentsFirst(t0, targets, declared) && RepairAll(t0, targets, declared).ok
    ensures var r := RepairAll(t0, targets, declared); UndoAll(r.tree, r.changes) == Outcome(true, t0)
  {
    assert targets[..|targets|] == targets;
    RepairGrows(t0, targets, |targets|, declared);
  }

  lemma {:induction false} UndoKeeps(t: Tree, changes: seq<Entry>, a: Path)
    requires a in t && forall i :: 0 <= i < |changes| && !changes[i].beforeExists ==> !AtOrAbove(changes[i].path, a)
    ensures a in UndoAll(t, changes).tree
    decreases |changes|
  {
    if changes != [] {
      UndoKeeps(UndoEntry(t, changes[|changes| - 1]).tree, changes[..|changes| - 1], a);
    }
  }

  /** The other half: whatever the repair made silently, outside every logged creation, stays. */
  lemma SilentParentsStay(t0: Tree, targets: seq<Target>, declared: seq<Target>)
    requires var r := RepairAll(t0, targets, declared); UndoAll(r.tree, r.changes).tree == t0
    ensures var r := RepairAll(t0, targets, declared);
            forall a :: a in r.tree && a !in t0 ==>
              exists i :: 0 <= i < |r.changes| && !r.changes[i].beforeExists && AtOrAbove(r.changes[i].path, a)
  {
    var r := RepairAll(t0, targets, declared);
    forall a | a in r.tree && a !in t0
      ensures exists i :: 0 <= i < |r.changes| && !r.changes[i].beforeExists && AtOrAbove(r.changes[i].path, a)
    {
      if forall i :: 0 <= i < |r.changes| && !r.changes[i].beforeExists ==> !AtOrAbove(r.changes[i].path, a) {
        UndoKeeps(r.tree, r.changes, a);
      }
    }
  }

  // ---------------------------------------------------------------- a repair that fails

  /** The deepest ancestor of a path, itself included, that is there. */
  function Deepest(t: Tree, p: Path): Path {
    if p in t || p == [] then p else Deepest(t, Parent(p))
  }

  /** MkdirAll would make at least one directory on the way to p, whether or not it gets there. */
  predicate MakesSome(t: Tree, p: Path) {
    Stat(t, p).Missing? && CanEdit(t, Deepest(t, p))
  }

  /** The parent that repairing this target opens up before it looks at the file. */
  function Opened(t: Tree, target: Target, declared: seq<Target>): Option<Path> {
    var parent := ParentToSearch(target, declared);
    if parent.Some? && Stat(t, parent.value).Found? then parent else None
  }

  /** What can be seen is there, and what is missing is not hidden: its deepest ancestor is seen. */
  lemma {:induction false} MissingFrom(t: Tree, p: Path, k: nat)
    requires Closed(t) && k <= |p| && StatFrom(t, p, k).Missing? && forall j :: 0 <= j < k ==> CanSearch(t, p[..j])
    ensures p !in t && Reachable(t, Deepest(t, p)) && DirAt(t, Deepest(t, p))
    decreases |p| - k
  {
    if p[..k] in t {
      MissingFrom(t, p, k + 1);
    } else {
      var m := DeepestAt(t, p, k);
      forall q | Above(q, p[..m]) ensures CanSearch(t, q) { assert q == p[..|q|]; }
    }
  }

  /** Below the first missing prefix nothing is there. */
  lemma {:induction false} DeepestAt(t: Tree, p: Path, k: nat) returns (m: nat)
    requires Closed(t) && k <= |p| && p[..k] !in t && forall j :: 0 <= j < k ==> CanSearch(t, p[..j])
    ensures p !in t && m < k && Deepest(t, p) == p[..m] && DirAt(t, p[..m])
    decreases |p|
  {
    assert p[..0] == [];
    if p in t && k < |p| { AncestorIsDir(t, p, p[..k]); }
    if k < |p| {
      assert Parent(p)[..k] == p[..k];
      forall j | 0 <= j < k ensures CanSearch(t, Parent(p)[..j]) { assert Parent(p)[..j] == p[..j]; }
      m := DeepestAt(t, Parent(p), k);
      assert Parent(p)[..m] == p[..m];
    } else {
      assert p[..k] == p && Parent(p) == p[..k - 1];
      m := k - 1;
    }
  }

  lemma MissingSpec(t: Tree, p: Path)
    requires Closed(t) && Stat(t, p).Missing?
    ensures p !in t && Reachable(t, Deepest(t, p)) && DirAt(t, Deepest(t, p))
  {
    MissingFrom(t, p, 0);
  }

  /** Making directories changes the tree exactly when the deepest one that is there can be edited. */
  lemma {:induction false} MakeDirsTouches(t: Tree, p: Path, mode: nat)
    requires Closed(t) && p !in t && Reachable(t, Deepest(t, p)) && DirAt(t, Deepest(t, p))
    ensures MakeDirs(t, p, mode).tree == t <==> !CanEdit(t, Deepest(t, p))
    decreases |p|
  {
    StatSpec(t, p);
    MakeDirsSpec(t, Parent(p), mode);
    StatSpec(t, Parent(p));
    if Parent(p) !in t { MakeDirsTouches(t, Parent(p), mode); }
  }

  lemma OpenParentSpec(t: Tree, target: Target, declared: seq<Target>)
    requires Closed(t)
    ensures var parent, widened := ParentToSearch(target, declared), Opened(t, target, declared);
              var r := OpenParent(t, parent);
            && Closed(r.tree)
            && (r.ok <==> parent.None? || widened.Some?)
            && r.tree == if widened.Some? then t[widened.value := WithMode(t[widened.value], MODE_0711)] else t
  {
    var parent := ParentToSearch(target, declared);
    if parent.Some? {
      StatSpec(t, parent.value);
      SetModeSpec(t, parent.value, MODE_0711);
    }
  }

  function WithMode(node: Node, mode: nat): Node {
    if node.Dir? then Dir(mode) else File(node.content, mode)
  }

  /** A file that cannot be repaired is not touched. */
  lemma FailedEntry(t: Tree, p: Path, mayCreate: bool, mode: nat)
    requires Closed(t) && !RepairEntry(t, p, mayCreate, mode).ok
    ensures RepairEntry(t, p, mayCreate, mode).tree == t
  {
    StatSpec(t, p);
    if Stat(t, p).Found? {
      SetModeSpec(t, p, mode);
    } else if CreateFile(t, p, mode).ok {
      var there := CreateFile(t, p, mode).tree;
      StatSpec(t, Parent(p));
      assert Closed(there);
      ReachableChild(there, p);
      forall q | Above(q, Parent(p)) ensures CanSearch(there, q) {}
      SetModeSpec(there, p, mode);
    }
  }

  /** The tree a failed repair of one target leaves. */
  lemma FailedRepairTree(t: Tree, target: Target, declared: seq<Target>)
    requires Closed(t) && !RepairOne(t, target, declared).ok
    ensures RepairOne(t, target, declared).tree ==
            match target.kind
            case DirKind => if Stat(t, target.path).Missing? then MakeDirs(t, target.path, target.mode).tree else t
            case FileKind => OpenParent(t, ParentToSearch(target, declared)).tree
            case OtherKind => t
  {
    match target.kind
    case DirKind =>
      var made := MakeDirs(t, target.path, target.mode);
      MakeDirsSpec(t, target.path, target.mode);
      if made.ok { SetModeSpec(made.tree, target.path, target.mode); }
    case FileKind =>
      var search := OpenParent(t, ParentToSearch(target, declared));
      OpenParentSpec(t, target, declared);
      if search.ok { FailedEntry(search.tree, target.path, MayCreate(target, declared), target.mode); }
    case OtherKind =>
  }

  /** What a failed repair needs to leave the tree alone: a directory target that is missing lies below
      a directory that cannot be edited, and the parent opened for a file was open before. */
  predicate HarmlessFailure(t: Tree, target: Target, declared: seq<Target>) {
    && (target.kind.DirKind? ==> !MakesSome(t, target.path))
    && (target.kind.FileKind? ==> var widened := Opened(t, target, declared);
                                  widened.Some? && widened.value in t ==> t[widened.value].mode == MODE_0711)
  }

  /** A repair that fails drops its log, so nothing is undone: it leaves the tree as it was exactly
      when it made no directory on the way and opened no parent. */
  lemma WhenFailureIsHarmless(t: Tree, target: Target, declared: seq<Target>)
    requires Closed(t) && !RepairOne(t, target, declared).ok
    ensures RepairOne(t, target, declared).tree == t <==> HarmlessFailure(t, target, declared)
  {
    FailedRepairTree(t, target, declared);
    if target.kind.DirKind? && Stat(t, target.path).Missing? {
      MissingSpec(t, target.path);
      MakeDirsTouches(t, target.path, target.mode);
    } else if target.kind.FileKind? {
      OpenParentSpec(t, target, declared);
      var widened := Opened(t, target, declared);
      if widened.Some? {
        StatSpec(t, widened.value);
        assert t[widened.value := WithMode(t[widened.value], MODE_0711)] == t <==> t[widened.value].mode == MODE_0711;
      }
    }
  }

  // ---------------------------------------------------------------- when a repair works

  lemma {:induction false} MakeDirsWorks(t: Tree, p: Path, mode: nat)
    requires Closed(t)
    ensures MakeDirs(t, p, mode).ok <==>
              if p in t then DirAt(t, p) && Reachable(t, p)
              else && Reachable(t, Deepest(t, p)) && CanEdit(t, Deepest(t, p))
                   && (Parent(p) in t || (Searchable(mode) && Writable(mode)))
    decreases |p|
  {
    StatSpec(t, p);
    if p != [] { MakeDirsSpec(t, Parent(p), mode); }
    if p !in t {
      var up := MakeDirs(t, Parent(p), mode);
      MakeDirsWorks(t, Parent(p), mode);
      assert p !in up.tree;
      if Parent(p) in t {
        assert Deepest(t, p) == Parent(p) && up.tree == t;
      } else {
        assert Deepest(t, p) == Deepest(t, Parent(p));
        assert up.ok ==> up.tree[Parent(p)] == Dir(mode);
      }
    }
  }

  /** A directory target is repaired exactly when it is a directory in sight, or it is missing and the
      deepest directory above it can be edited, and so can the new ones, if it takes more than one. */
  lemma DirRepairWorks(t: Tree, target: Target, declared: seq<Target>)
    requires Closed(t) && target.kind.DirKind?
    ensures var p := target.path;
            RepairOne(t, target, declared).ok <==>
              if p in t then t[p].Dir? && Reachable(t, p)
              else && Reachable(t, Deepest(t, p)) && CanEdit(t, Deepest(t, p))
                   && (Parent(p) in t || (Searchable(target.mode) && Writable(target.mode)))
  {
    var p := target.path;
    var made := MakeDirs(t, p, target.mode);
    MakeDirsWorks(t, p, target.mode);
    MakeDirsSpec(t, p, target.mode);
    SetModeSpec(made.tree, p, target.mode);
    StatHidden(t, p);
    if made.ok {
      forall q | Above(q, p) && q in t ensures CanSearch(t, q) { assert CanSearch(made.tree, q); }
    }
  }

  lemma EntryWorks(t: Tree, p: Path, mayCreate: bool, mode: nat)
    requires Closed(t)
    ensures RepairEntry(t, p, mayCreate, mode).ok <==>
              && p != [] && DirAt(t, Parent(p)) && Reachable(t, p)
              && if p in t then t[p].File? else mayCreate && Writable(t[Parent(p)].mode)
    ensures RepairEntry(t, p, mayCreate, mode).ok ==>
              RepairEntry(t, p, mayCreate, mode).tree == t[p := File(if p in t then t[p].content else "", mode)]
  {
    StatHidden(t, p);
    StatSpec(t, p);
    if p != [] {
      ReachableChild(t, p);
      StatHidden(t, Parent(p));
      StatSpec(t, Parent(p));
    }
    if Stat(t, p).Found? {
      SetModeSpec(t, p, mode);
    } else if Stat(t, p).Missing? && mayCreate && CreateFile(t, p, mode).ok {
      var there := CreateFile(t, p, mode).tree;
      assert Closed(there);
      ReachableChild(there, p);
      forall q | Above(q, Parent(p)) ensures CanSearch(there, q) {}
      SetModeSpec(there, p, mode);
    }
  }

  /** A file target is repaired exactly when the directory it is in can be reached, and searched unless
      this target opens it, and there is a file, or else one may be made there: its access is "write",
      or it is "read" and the policy makes that directory one to write in. The parent is opened unless
      it is the root or the policy has that directory among its targets. */
  lemma FileRepairWorks(t: Tree, target: Target, declared: seq<Target>)
    requires Closed(t) && target.kind.FileKind?
    ensures var p := target.path;
            var opens := |p| > 1 && forall d :: d in declared && d.kind.DirKind? ==> d.path != Parent(p);
            RepairOne(t, target, declared).ok <==>
              && p != [] && DirAt(t, Parent(p)) && Reachable(t, Parent(p))
              && (opens || Searchable(t[Parent(p)].mode))
              && if p in t then t[p].File?
                 else && (opens || Writable(t[Parent(p)].mode))
                      && (target.access == "write"
                          || (target.access == "read" && |p| > 1
                              && exists d :: d in declared && d.kind.DirKind? && d.path == Parent(p)
                                   && (d.access == "" || d.access == "write")))
  {
    var p, parent := target.path, ParentToSearch(target, declared);
    OpenParentSpec(t, target, declared);
    var search := OpenParent(t, parent);
    EntryWorks(search.tree, p, MayCreate(target, declared), target.mode);
    if p != [] {
      StatSpec(t, Parent(p));
      ReachableChild(search.tree, p);
      forall q | Above(q, Parent(p)) ensures CanSearch(search.tree, q) <==> CanSearch(t, q) {}
    }
  }

  /** What a repaired file target leaves: the file with its old content or none, of the mode asked for,
      the parent of mode 0711 when it was opened, and the rest of the tree. */
  lemma FileRepairLeaves(t: Tree, target: Target, declared: seq<Target>)
    requires Closed(t) && target.kind.FileKind? && RepairOne(t, target, declared).ok
    ensures var p, r := target.path, RepairOne(t, target, declared).tree;
            var opens := |p| > 1 && forall d :: d in declared && d.kind.DirKind? ==> d.path != Parent(p);
            var content := if FileAt(t, p).Some? then t[p].content else "";
            p != [] && r == (if opens then t[Parent(p) := Dir(457)] else t)[p := File(content, target.mode)]
  {
    var parent := ParentToSearch(target, declared);
    FileRepairWorks(t, target, declared);
    OpenParentSpec(t, target, declared);
    EntryWorks(OpenParent(t, parent).tree, target.path, MayCreate(target, declared), target.mode);
  }

  /** The target at which a list of repairs fails. */
  ghost predicate FailsAt(t: Tree, targets: seq<Target>, declared: seq<Target>, n: nat) {
    && n < |targets| && RepairAll(t, targets[..n], declared).ok
    && !RepairOne(RepairAll(t, targets[..n], declared).tree, targets[n], declared).ok
  }

  lemma {:induction false} FirstFailure(t: Tree, targets: seq<Target>, declared: seq<Target>) returns (n: nat)
    requires !RepairAll(t, targets, declared).ok
    ensures FailsAt(t, targets, declared, n)
    ensures RepairAll(t, targets, declared).tree
              == RepairOne(RepairAll(t, targets[..n], declared).tree, targets[n], declared).tree
    decreases |targets|
  {
    var init := targets[..|targets| - 1];
    if RepairAll(t, init, declared).ok {
      n := |targets| - 1;
    } else {
      n := FirstFailure(t, init, declared);
      assert init[..n] == targets[..n];
    }
  }

  /** The mode a path is given by the first n targets, beginning with the one it has. */
  function Asked(targets: seq<Target>, declared: seq<Target>, n: nat, q: Path, mode: nat): nat
    requires n <= |targets|
  {
    if n == 0 then mode
    else if q == targets[n - 1].path then targets[n - 1].mode
    else if Some(q) == ParentToSearch(targets[n - 1], declared) then MODE_0711
    else Asked(targets, declared, n - 1, q, mode)
  }

  /** Repairs of targets that are all there only set modes. */
  ghost predicate Remoded(t0: Tree, targets: seq<Target>, declared: seq<Target>, n: nat, t: Tree)
    requires n <= |targets|
  {
    && Closed(t) && t.Keys == t0.Keys
    && forall q :: q in t0 ==> t[q] == WithMode(t0[q], Asked(targets, declared, n, q, t0[q].mode))
  }

  /** r is t with the mode of one target, and of the parent opened for it, set. */
  ghost predicate SetFor(t: Tree, target: Target, declared: seq<Target>, r: Tree) {
    && Closed(r) && r.Keys == t.Keys
    && forall q :: q in t ==>
         r[q] == if q == target.path then WithMode(t[q], target.mode)
                 else if Some(q) == ParentToSearch(target, declared) then WithMode(t[q], MODE_0711)
                 else t[q]
  }

  /** Repairing a target that is there. */
  lemma RepairSets(t: Tree, target: Target, declared: seq<Target>)
    requires Closed(t) && target.path in t && RepairOne(t, target, declared).ok
    ensures SetFor(t, target, declared, RepairOne(t, target, declared).tree)
  {
    var p := target.path;
    StatSpec(t, p);
    if target.kind.DirKind? {
      SetModeSpec(t, p, target.mode);
    } else {
      var search := OpenParent(t, ParentToSearch(target, declared)).tree;
      OpenParentSpec(t, target, declared);
      StatSpec(search, p);
      SetModeSpec(search, p, target.mode);
      assert ParentToSearch(target, declared).Some? ==> ParentToSearch(target, declared).value != p;
    }
  }

  lemma RepairsOn(t: Tree, targets: seq<Target>, declared: seq<Target>, k: nat)
    requires k < |targets| && RepairAll(t, targets[..k + 1], declared).ok
    ensures RepairAll(t, targets[..k], declared).ok
    ensures var r := RepairOne(RepairAll(t, targets[..k], declared).tree, targets[k], declared);
            r.ok && RepairAll(t, targets[..k + 1], declared).tree == r.tree
  {
    assert targets[..k + 1][..k] == targets[..k] && targets[..k + 1][k] == targets[k];
  }

  lemma RemodedOn(t0: Tree, targets: seq<Target>, declared: seq<Target>, k: nat, t: Tree, r: Tree)
    requires k < |targets| && Remoded(t0, targets, declared, k, t) && SetFor(t, targets[k], declared, r)
    ensures Remoded(t0, targets, declared, k + 1, r)
  {
  }

  lemma {:induction false} RepairsRemode(t0: Tree, targets: seq<Target>, declared: seq<Target>, n: nat)
    requires Closed(t0) && n <= |targets| && RepairAll(t0, targets[..n], declared).ok
    requires forall i :: 0 <= i < n ==> targets[i].path in t0
    ensures Remoded(t0, targets, declared, n, RepairAll(t0, targets[..n], declared).tree)
  {
    if n > 0 {
      var k: nat := n - 1;
      assert targets[..n] == targets[..k + 1];
      RepairsOn(t0, targets, declared, k);
      RepairsRemode(t0, targets, declared, k);
      var before := RepairAll(t0, targets[..k], declared).tree;
      RepairSets(before, targets[k], declared);
      RemodedOn(t0, targets, declared, k, before, RepairOne(before, targets[k], declared).tree);
    }
  }

  /** Everything that was there still is, and so are the first n targets. */
  ghost predicate AllThere(t0: Tree, targets: seq<Target>, n: nat, t: Tree)
    requires n <= |targets|
  {
    Closed(t) && t0.Keys <= t.Keys && forall i :: 0 <= i < n ==> targets[i].path in t
  }

  lemma RepairKeeps(t: Tree, target: Target, declared: seq<Target>)
    requires Closed(t) && RepairOne(t, target, declared).ok
    ensures var r := RepairOne(t, target, declared).tree; Closed(r) && target.path in r && t.Keys <= r.Keys
  {
    if target.kind.DirKind? {
      DirUndone(t, target.path, target.mode);
    } else {
      FileUndone(t, target, declared);
    }
  }

  lemma AllThereOn(t0: Tree, targets: seq<Target>, k: nat, t: Tree, r: Tree)
    requires k < |targets| && AllThere(t0, targets, k, t) && Closed(r) && targets[k].path in r && t.Keys <= r.Keys
    ensures AllThere(t0, targets, k + 1, r)
  {
  }

  lemma {:induction false} RepairsKeep(t0: Tree, targets: seq<Target>, declared: seq<Target>, n: nat)
    requires Closed(t0) && n <= |targets| && RepairAll(t0, targets[..n], declared).ok
    ensures AllThere(t0, targets, n, RepairAll(t0, targets[..n], declared).tree)
  {
    if n > 0 {
      var k: nat := n - 1;
      assert targets[..n] == targets[..k + 1];
      RepairsOn(t0, targets, declared, k);
      RepairsKeep(t0, targets, declared, k);
      var before := RepairAll(t0, targets[..k], declared).tree;
      RepairKeeps(before, targets[k], declared);
      AllThereOn(t0, targets, k, before, RepairOne(before, targets[k], declared).tree);
    }
  }

  /** Target i is there as what it was to be and, unless a later target has the same path, with the mode
      it asked for. */
  ghost predicate InPlace(t: Tree, targets: seq<Target>, n: nat, i: nat)
    requires i < n <= |targets|
  {
    var target := targets[i];
    && target.path in t
    && (target.kind.DirKind? <==> t[target.path].Dir?) && (target.kind.FileKind? <==> t[target.path].File?)
    && ((forall j :: i < j < n ==> targets[j].path != target.path) ==> t[target.path].mode == target.mode)
  }

  /** What a repair does to another target of the same policy that is in place. */
  lemma OthersStay(t: Tree, targets: seq<Target>, k: nat, i: nat)
    requires Closed(t) && i < k < |targets| && RepairOne(t, targets[k], targets).ok && InPlace(t, targets, k, i)
    ensures InPlace(RepairOne(t, targets[k], targets).tree, targets, k + 1, i)
  {
    var r := RepairOne(t, targets[k], targets).tree;
    if targets[k].kind.DirKind? {
      DirUndone(t, targets[k].path, targets[k].mode);
      DirRepairWorks(t, targets[k], targets);
    } else {
      FileRepairWorks(t, targets[k], targets);
      FileRepairLeaves(t, targets[k], targets);
      assert targets[i] in targets;
    }
    if forall j :: i < j < k + 1 ==> targets[j].path != targets[i].path {
      assert targets[k].path != targets[i].path;
    }
  }

  lemma LastInPlace(t: Tree, targets: seq<Target>, k: nat)
    requires Closed(t) && k < |targets| && RepairOne(t, targets[k], targets).ok
    ensures InPlace(RepairOne(t, targets[k], targets).tree, targets, k + 1, k)
  {
    if targets[k].kind.DirKind? {
      DirUndone(t, targets[k].path, targets[k].mode);
    } else {
      FileRepairWorks(t, targets[k], targets);
      FileRepairLeaves(t, targets[k], targets);
    }
  }

  /** After a repair that works all targets are in place. */
  lemma {:induction false} TargetsInPlace(t0: Tree, targets: seq<Target>, n: nat)
    requires Closed(t0) && n <= |targets| && RepairAll(t0, targets[..n], targets).ok
    ensures forall i :: 0 <= i < n ==> InPlace(RepairAll(t0, targets[..n], targets).tree, targets, n, i)
  {
    if n > 0 {
      var k: nat := n - 1;
      assert targets[..n] == targets[..k + 1];
      RepairsOn(t0, targets, targets, k);
      TargetsInPlace(t0, targets, k);
      RepairsKeep(t0, targets, targets, k);
      var before := RepairAll(t0, targets[..k], targets).tree;
      forall i | 0 <= i < n ensures InPlace(RepairOne(before, targets[k], targets).tree, targets, n, i) {
        if i < k { OthersStay(before, targets, k, i); } else { LastInPlace(before, targets, k); }
      }
    }
  }

  /** What a run that fails at target n needs to leave the tree alone: every target before was there,
      each path was last given the mode it had, and the failure itself is harmless. The parent
      that target n opens may have been given any mode before. */
  ghost predicate HarmlessRun(t: Tree, targets: seq<Target>, declared: seq<Target>, n: nat)
    requires n < |targets|
  {
    && (forall i :: 0 <= i < n ==> targets[i].path in t)
    && HarmlessFailure(t, targets[n], declared)
    && forall q :: q in t && !(targets[n].kind.FileKind? && Some(q) == Opened(t, targets[n], declared)) ==>
         Asked(targets, declared, n, q, t[q].mode) == t[q].mode
  }

  /** The failing target adds at most directories and the mode of one parent. */
  lemma FailedRepairKeeps(t: Tree, target: Target, declared: seq<Target>)
    requires Closed(t) && !RepairOne(t, target, declared).ok
    ensures var r := RepairOne(t, target, declared).tree;
            && t.Keys <= r.Keys
            && forall q :: q in t && !(target.kind.FileKind? && Some(q) == Opened(t, target, declared)) ==> r[q] == t[q]
  {
    FailedRepairTree(t, target, declared);
    if target.kind.DirKind? {
      MakeDirsSpec(t, target.path, target.mode);
    } else if target.kind.FileKind? {
      OpenParentSpec(t, target, declared);
    }
  }

  /** Only modes above a path decide whether it is seen. */
  lemma SameOpened(t: Tree, t1: Tree, target: Target, declared: seq<Target>)
    requires Closed(t) && Closed(t1) && t.Keys == t1.Keys
    requires forall q :: q in t && Some(q) != ParentToSearch(target, declared) ==> t1[q] == t[q]
    ensures Opened(t, target, declared) == Opened(t1, target, declared)
  {
    var parent := ParentToSearch(target, declared);
    if parent.Some? {
      StatSpec(t, parent.value);
      StatSpec(t1, parent.value);
      forall q | Above(q, parent.value) ensures CanSearch(t, q) <==> CanSearch(t1, q) {}
    }
  }

  lemma HarmlessRunWorks(t0: Tree, targets: seq<Target>, declared: seq<Target>, n: nat, t: Tree)
    requires Closed(t0) && n < |targets| && Remoded(t0, targets, declared, n, t)
    requires !RepairOne(t, targets[n], declared).ok && HarmlessRun(t0, targets, declared, n)
    ensures RepairOne(t, targets[n], declared).tree == t0
  {
    var target := targets[n];
    FailedRepairTree(t, target, declared);
    if target.kind.FileKind? {
      SameOpened(t0, t, target, declared);
      OpenParentSpec(t, target, declared);
      var r := RepairOne(t, target, declared).tree;
      forall q | q in t0 ensures r[q] == t0[q] {}
      assert r.Keys == t0.Keys;
    } else {
      forall q | q in t0 ensures t[q] == t0[q] {}
      assert t == t0;
      WhenFailureIsHarmless(t0, target, declared);
    }
  }

  lemma HarmlessRunNeeded(t0: Tree, targets: seq<Target>, declared: seq<Target>, n: nat, t: Tree)
    requires Closed(t0) && n < |targets| && Remoded(t0, targets, declared, n, t)
    requires forall i :: 0 <= i < n ==> targets[i].path in t0
    requires !RepairOne(t, targets[n], declared).ok && RepairOne(t, targets[n], declared).tree == t0
    ensures HarmlessRun(t0, targets, declared, n)
  {
    var target := targets[n];
    FailedRepairKeeps(t, target, declared);
    if target.kind.FileKind? {
      OpenParentSpec(t, target, declared);
      SameOpened(t0, t, target, declared);
      FailedRepairTree(t, target, declared);
    } else {
      forall q | q in t ensures t[q] == t0[q] {}
      assert t == t0;
      WhenFailureIsHarmless(t0, target, declared);
    }
  }

  /** A refused run leaves the tree as it was exactly when every target before the failing one was
      there and last asked for the mode each path had, and the failure itself made and opened
      nothing. All of this can be read off the first tree. */
  lemma WhenRefusalIsHarmless(t: Tree, targets: seq<Target>, declared: seq<Target>, n: nat)
    requires Closed(t) && FailsAt(t, targets, declared, n)
    ensures RepairOne(RepairAll(t, targets[..n], declared).tree, targets[n], declared).tree == t
       <==> HarmlessRun(t, targets, declared, n)
  {
    var before := RepairAll(t, targets[..n], declared).tree;
    RepairsKeep(t, targets, declared, n);
    FailedRepairKeeps(before, targets[n], declared);
    if forall i :: 0 <= i < n ==> targets[i].path in t {
      RepairsRemode(t, targets, declared, n);
      if HarmlessRun(t, targets, declared, n) {
        HarmlessRunWorks(t, targets, declared, n, before);
      } else if RepairOne(before, targets[n], declared).tree == t {
        HarmlessRunNeeded(t, targets, declared, n, before);
      }
    }
  }

  /** There is such a target, and the tree it leaves is the one the whole run leaves. */
  lemma RefusedRun(t: Tree, targets: seq<Target>, declared: seq<Target>) returns (n: nat)
    requires Closed(t) && !RepairAll(t, targets, declared).ok
    ensures FailsAt(t, targets, declared, n)
    ensures RepairAll(t, targets, declared).tree == t <==> HarmlessRun(t, targets, declared, n)
  {
    n := FirstFailure(t, targets, declared);
    WhenRefusalIsHarmless(t, targets, declared, n);
  }

  lemma {:induction false} RepairStops(t: Tree, targets: seq<Target>, n: nat, declared: seq<Target>)
    requires n <= |targets| && !RepairAll(t, targets[..n], declared).ok
    ensures !RepairAll(t, targets, declared).ok
    ensures RepairAll(t, targets, declared).tree == RepairAll(t, targets[..n], declared).tree
    decreases |targets| - n
  {
    if n == |targets| {
      assert targets[..n] == targets;
    } else {
      assert targets[..n + 1][..n] == targets[..n];
      RepairStops(t, targets, n + 1, declared);
    }
  }

  const SHUT: Tree := map[[] := Dir(448), ["d"] := Dir(448)]
  const READ_MISSING := Target(["d", "f"], FileKind, "read", 420)

  /** A repair that fails after opening the parent leaves it open: the log is dropped. */
  lemma FailedRepairLeavesParentOpen()
    ensures Closed(SHUT)
    ensures RepairAll(SHUT, [READ_MISSING], [READ_MISSING]) == Repair(false, SHUT[["d"] := Dir(MODE_0711)], [])
  {
    var after := SHUT[["d"] := Dir(MODE_0711)];
    assert Parent(["d"]) == [] && Parent(["d", "f"]) == ["d"];
    assert Closed(SHUT) && Closed(after);
    forall q | Above(q, ["d"]) ensures q == [] {}
    StatSpec(SHUT, ["d"]);
    StatSpec(after, ["d", "f"]);
    forall q | Above(q, ["d", "f"]) ensures q == [] || q == ["d"] {
      if |q| == 1 { assert q == ["d", "f"][..1]; }
    }
    assert [READ_MISSING][..0] == [];
    assert Stat(after, ["d", "f"]) == Missing by {
      assert ["d", "f"][..0] == [] && ["d", "f"][..1] == ["d"] && ["d", "f"][..2] == ["d", "f"];
      assert StatFrom(after, ["d", "f"], 2) == Missing;
      assert StatFrom(after, ["d", "f"], 1) == Missing;
    }
  }
}
