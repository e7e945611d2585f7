/** internal/readinessresolve: which lists of repaired targets come back, and the resolver around
    repair, manifest, probe and undo. */
module ReadinessRollback {
  import opened Wrappers
  import opened FileTree
  import opened Access
  import opened Manifests
  import opened ReadinessResolve

  // ---------------------------------------------------------------- the conditions

  /** The owner can search, write and read: the first octal digit is 7. */
  predicate WorkMode(mode: nat) {
    448 <= Perm(mode)
  }

  /** What the policy reader admits, with directories the owner can work in. */
  ghost predicate Workable(targets: seq<Target>) {
    forall i :: 0 <= i < |targets| ==> targets[i].mode < 512 && (targets[i].kind.DirKind? ==> WorkMode(targets[i].mode))
  }

  ghost predicate TouchedBy(targets: seq<Target>, declared: seq<Target>, n: nat, q: Path)
    requires n <= |targets|
  {
    exists i :: 0 <= i < n && Touches(targets[i], declared, q)
  }

  /** No touched path had bits above 0777. */
  ghost predicate PlainTouched(t0: Tree, targets: seq<Target>, declared: seq<Target>) {
    forall q :: q in t0 && TouchedBy(targets, declared, |targets|, q) ==> t0[q].mode < 512
  }

  /** Target k is the first for its path, which was missing and is a or lies above it; if above, what
      it is made in was missing too, or can be read when target k has been repaired. */
  ghost predicate Covers(t0: Tree, targets: seq<Target>, declared: seq<Target>, k: nat, a: Path)
    requires k < |targets|
  {
    var c := targets[k].path;
    && c != [] && c !in t0 && AtOrAbove(c, a)
    && (forall j :: 0 <= j < k ==> targets[j].path != c)
    && (c == a || Parent(c) !in t0 || Listable(Asked(targets, declared, k + 1, Parent(c), t0[Parent(c)].mode)))
  }

  ghost predicate CoveredBefore(t0: Tree, targets: seq<Target>, declared: seq<Target>, i: nat, a: Path)
    requires i <= |targets|
  {
    exists k :: 0 <= k < i && Covers(t0, targets, declared, k, a)
  }

  /** Every directory that is made silently is covered by a target listed before. */
  ghost predicate SilentCovered(t0: Tree, targets: seq<Target>, declared: seq<Target>) {
    forall i, a {:trigger CoveredBefore(t0, targets, declared, i, a)} ::
      0 <= i < |targets| && targets[i].kind.DirKind? && Above(a, targets[i].path) && a !in t0 ==>
        CoveredBefore(t0, targets, declared, i, a)
  }

  // ---------------------------------------------------------------- undoing one target among leftovers

  /** u is t together with directories that can be worked in. */
  ghost predicate Amid(t: Tree, u: Tree) {
    && Closed(u)
    && (forall q :: q in t ==> q in u && u[q] == t[q])
    && (forall q :: q in u && q !in t ==> u[q].Dir? && WorkMode(u[q].mode))
  }

  lemma AmidReachable(t: Tree, u: Tree, p: Path)
    requires Closed(t) && Amid(t, u) && p in t && Reachable(t, p)
    ensures Stat(u, p) == Found(t[p])
  {
    StatSpec(u, p);
    forall q | Above(q, p) ensures CanSearch(u, q) { AncestorIsDir(t, p, q); }
  }

  lemma ModeBackAmid(t: Tree, p: Path, mode: nat, u: Tree)
    requires Closed(t) && p in t && t[p].mode < 512 && Reachable(t, p)
    requires Amid(t[p := WithMode(t[p], mode)], u)
    ensures var r := SetMode(u, p, Perm(t[p].mode)); r.ok && Amid(t, r.tree) && r.tree.Keys == u.Keys
  {
    var changed := t[p := WithMode(t[p], mode)];
    forall q | Above(q, p) ensures CanSearch(changed, q) {}
    assert Closed(changed);
    AmidReachable(changed, u, p);
    SetModeSpec(u, p, t[p].mode);
  }

  /** The keys of u apart from p and what is below it. */
  ghost predicate Pruned(u: Tree, p: Path, v: Tree) {
    forall q :: q in v <==> q in u && !AtOrAbove(p, q)
  }

  /** A created leaf goes with the directories put below it, unless there are some and the directory
      it sits in cannot be read. */
  lemma LeafGoneAmid(t: Tree, r: Tree, p: Path, u: Tree)
    requires Closed(t) && Closed(r) && Amid(r, u) && p != [] && p in r && Reachable(r, p)
    requires p !in t && (forall q :: q in t ==> q in r && r[q] == t[q])
    requires forall q :: q in r && q !in t && q != p ==> r[q].Dir? && WorkMode(r[q].mode)
    requires forall q :: q in r ==> !Above(p, q)
    requires CanEdit(r, Parent(p)) && (r[p].Dir? ==> WorkMode(r[p].mode))
    ensures var back := RemoveTree(u, p);
            && (back.ok <==> (HasBelow(u, p) ==> CanRead(r, Parent(p))))
            && (back.ok ==> Amid(t, back.tree) && Pruned(u, p, back.tree))
  {
    AmidReachable(r, u, p);
    RemoveTreeSpec(u, p);
    forall q | q in u && Above(p, q) ensures CanEdit(u, Parent(q)) && CanRead(u, Parent(q)) {
      AncestorIsDir(u, q, p);
      if Parent(q) != p { assert Above(p, Parent(q)); }
    }
    assert Removable(u, p);
    forall q | q in t && AtOrAbove(p, q) ensures q == p { assert q != p ==> Above(p, q); }
  }

  /** What undoing the log of one target does to u, when p was there before it and when not. */
  ghost predicate StepBack(t: Tree, p: Path, r: Tree, u: Tree, back: Outcome) {
    if p in t then back.ok && Amid(t, back.tree) && back.tree.Keys == u.Keys
    else
      && p != []
      && (back.ok <==> (HasBelow(u, p) ==> CanRead(r, Parent(p))))
      && (back.ok ==> Amid(t, back.tree) && Pruned(u, p, back.tree))
  }

  lemma DirUndoneAmid(t: Tree, p: Path, mode: nat, u: Tree)
    requires Closed(t) && RepairDir(t, p, mode).ok && Amid(RepairDir(t, p, mode).tree, u)
    requires WorkMode(mode) && (p in t ==> t[p].mode < 512)
    ensures StepBack(t, p, RepairDir(t, p, mode).tree, u, UndoAll(u, RepairDir(t, p, mode).changes))
  {
    var made, r := MakeDirs(t, p, mode), RepairDir(t, p, mode);
    MakeDirsSpec(t, p, mode);
    SetModeSpec(made.tree, p, mode);
    StatSpec(t, p);
    UndoSingle(u, r.changes[0]);
    if p in t {
      ModeBackAmid(t, p, mode, u);
    } else {
      forall q | q in r.tree ensures !Above(p, q) {
        if q in t && Above(p, q) { AncestorIsDir(t, q, p); }
      }
      LeafGoneAmid(t, r.tree, p, u);
    }
  }

  lemma EntryUndoneAmid(t: Tree, p: Path, mayCreate: bool, mode: nat, u: Tree)
    requires Closed(t) && RepairEntry(t, p, mayCreate, mode).ok && Amid(RepairEntry(t, p, mayCreate, mode).tree, u)
    requires p in t ==> t[p].mode < 512
    ensures !HasBelow(u, p)
    ensures StepBack(t, p, RepairEntry(t, p, mayCreate, mode).tree, u,
                     UndoAll(u, RepairEntry(t, p, mayCreate, mode).changes))
  {
    var r := RepairEntry(t, p, mayCreate, mode);
    StatSpec(t, p);
    UndoSingle(u, r.changes[0]);
    EntryUndone(t, p, mayCreate, mode);
    forall q | q in u ensures !Above(p, q) { if Above(p, q) { AncestorIsDir(u, q, p); } }
    if Stat(t, p).Found? {
      SetModeSpec(t, p, mode);
      ModeBackAmid(t, p, mode, u);
    } else {
      StatSpec(t, Parent(p));
      var there := CreateFile(t, p, mode).tree;
      assert Closed(there);
      SetModeSpec(there, p, mode);
      LeafGoneAmid(t, r.tree, p, u);
    }
  }

  /** What a target needs of the modes in the tree it is applied to. */
  predicate PlainFor(t: Tree, target: Target, declared: seq<Target>) {
    var parent := ParentToSearch(target, declared);
    && (target.path in t ==> t[target.path].mode < 512)
    && (parent.Some? && parent.value in t ==> t[parent.value].mode < 512)
  }

  lemma FileUndoneAmid(t: Tree, target: Target, declared: seq<Target>, u: Tree)
    requires Closed(t) && target.kind.FileKind? && RepairOne(t, target, declared).ok
    requires Amid(RepairOne(t, target, declared).tree, u) && PlainFor(t, target, declared)
    ensures StepBack(t, target.path, RepairOne(t, target, declared).tree, u,
                     UndoAll(u, RepairOne(t, target, declared).changes))
  {
    var p, parent := target.path, ParentToSearch(target, declared);
    var search := OpenParent(t, parent);
    ParentUndone(t, parent);
    var file := RepairEntry(search.tree, p, MayCreate(target, declared), target.mode);
    EntryUndoneAmid(search.tree, p, MayCreate(target, declared), target.mode, u);
    var r := RepairOne(t, target, declared);
    if parent.None? {
      assert r.changes == file.changes;
    } else {
      var d := parent.value;
      SetModeSpec(t, d, MODE_0711);
      StatSpec(t, d);
      UndoPair(u, search.changes[0], file.changes[0]);
      UndoSingle(u, file.changes[0]);
      ModeBackAmid(t, d, MODE_0711, UndoAll(u, file.changes).tree);
    }
  }

  /** Undoing one target when later targets have left directories behind. */
  lemma OneUndoneAmid(t: Tree, target: Target, declared: seq<Target>, u: Tree)
    requires Closed(t) && RepairOne(t, target, declared).ok && Amid(RepairOne(t, target, declared).tree, u)
    requires PlainFor(t, target, declared) && (target.kind.DirKind? ==> WorkMode(target.mode))
    ensures StepBack(t, target.path, RepairOne(t, target, declared).tree, u,
                     UndoAll(u, RepairOne(t, target, declared).changes))
  {
    if target.kind.DirKind? {
      DirUndoneAmid(t, target.path, target.mode, u);
    } else {
      FileUndoneAmid(t, target, declared, u);
    }
  }

  // ---------------------------------------------------------------- the trees of a run

  function TreeAfter(t0: Tree, targets: seq<Target>, declared: seq<Target>, k: nat): Tree
    requires k <= |targets|
  {
    RepairAll(t0, targets[..k], declared).tree
  }

  /** The first n repairs in one step more. */
  lemma LogOn(t: Tree, targets: seq<Target>, declared: seq<Target>, k: nat)
    requires k < |targets| && RepairAll(t, targets[..k + 1], declared).ok
    ensures var before := RepairAll(t, targets[..k], declared);
              var last := RepairOne(before.tree, targets[k], declared);
            before.ok && RepairAll(t, targets[..k + 1], declared)
                == Repair(true, last.tree, before.changes + last.changes) && last.ok
  {
    assert targets[..k + 1][..k] == targets[..k] && targets[..k + 1][k] == targets[k];
  }

  /** Modes above 0777 are only those of the first tree, on paths nobody touched. */
  ghost predicate ModesPlain(t0: Tree, targets: seq<Target>, declared: seq<Target>, n: nat, t: Tree)
    requires n <= |targets|
  {
    && AllThere(t0, targets, n, t)
    && (forall q :: q in t && q in t0 && !TouchedBy(targets, declared, n, q) ==> t[q].mode == t0[q].mode)
    && (forall q :: q in t && (q !in t0 || TouchedBy(targets, declared, n, q)) ==> t[q].mode < 512)
  }

  lemma TouchedOn(targets: seq<Target>, declared: seq<Target>, k: nat)
    requires k < |targets|
    ensures forall q :: TouchedBy(targets, declared, k + 1, q)
              <==> TouchedBy(targets, declared, k, q) || Touches(targets[k], declared, q)
  {
  }

  lemma ModesPlainOn(t0: Tree, targets: seq<Target>, declared: seq<Target>, k: nat, t: Tree, r: Tree)
    requires k < |targets| && ModesPlain(t0, targets, declared, k, t) && Repaired(t, targets[k], declared, r)
    ensures ModesPlain(t0, targets, declared, k + 1, r)
  {
    TouchedOn(targets, declared, k);
    AllThereOn(t0, targets, k, t, r);
  }

  lemma {:induction false} RepairsPlain(t0: Tree, targets: seq<Target>, declared: seq<Target>, n: nat)
    requires Closed(t0) && n <= |targets| && RepairAll(t0, targets[..n], declared).ok && Workable(targets)
    ensures ModesPlain(t0, targets, declared, n, RepairAll(t0, targets[..n], declared).tree)
  {
    if n > 0 {
      var k: nat := n - 1;
      assert targets[..n] == targets[..k + 1];
      LogOn(t0, targets, declared, k);
      RepairsPlain(t0, targets, declared, k);
      var before := RepairAll(t0, targets[..k], declared).tree;
      RepairOneSpec(before, targets[k], declared);
      ModesPlainOn(t0, targets, declared, k, before, RepairOne(before, targets[k], declared).tree);
    }
  }

  lemma PlainNext(t0: Tree, targets: seq<Target>, declared: seq<Target>, k: nat, t: Tree)
    requires k < |targets| && ModesPlain(t0, targets, declared, k, t) && PlainTouched(t0, targets, declared)
    ensures PlainFor(t, targets[k], declared)
  {
    forall q | q in t && Touches(targets[k], declared, q) ensures t[q].mode < 512 {
      assert TouchedBy(targets, declared, |targets|, q);
    }
    var parent := ParentToSearch(targets[k], declared);
    assert Touches(targets[k], declared, targets[k].path)
        && (parent.Some? ==> Touches(targets[k], declared, parent.value));
  }

  /** The modes of what was there are the ones last asked for, and nothing changes its kind. */
  ghost predicate ModesAsked(t0: Tree, targets: seq<Target>, declared: seq<Target>, k: nat, t: Tree)
    requires k <= |targets|
  {
    && (forall q :: q in t0 ==> q in t && t[q].mode == Asked(targets, declared, k, q, t0[q].mode))
    && (forall q :: q in t0 ==> t[q].Dir? == t0[q].Dir?)
    && (forall q :: q in t && q !in t0 && t[q].Dir? ==> WorkMode(t[q].mode))
  }

  /** What one repair does to modes and kinds. */
  lemma RepairModes(t: Tree, target: Target, declared: seq<Target>)
    requires Closed(t) && RepairOne(t, target, declared).ok && (target.kind.DirKind? ==> WorkMode(target.mode))
    ensures var r := RepairOne(t, target, declared).tree;
            && (forall q :: q in t ==>
                  && q in r && r[q].Dir? == t[q].Dir?
                  && r[q].mode == if q == target.path then target.mode
                                  else if Some(q) == ParentToSearch(target, declared) then MODE_0711
                                  else t[q].mode)
            && (forall q :: q in r && q !in t && r[q].Dir? ==> WorkMode(r[q].mode))
            && (target.path in t && t[target.path].Dir? ==> WorkMode(target.mode))
  {
    if target.kind.DirKind? {
      DirUndone(t, target.path, target.mode);
      MakeDirsSpec(t, target.path, target.mode);
      SetModeSpec(MakeDirs(t, target.path, target.mode).tree, target.path, target.mode);
    } else {
      FileUndone(t, target, declared);
      OpenParentSpec(t, target, declared);
      var search := OpenParent(t, ParentToSearch(target, declared)).tree;
      EntryUndone(search, target.path, MayCreate(target, declared), target.mode);
      StatSpec(search, target.path);
    }
  }

  lemma ModesAskedOn(t0: Tree, targets: seq<Target>, declared: seq<Target>, k: nat, t: Tree)
    requires k < |targets| && Closed(t) && ModesAsked(t0, targets, declared, k, t) && Workable(targets)
    requires RepairOne(t, targets[k], declared).ok
    ensures ModesAsked(t0, targets, declared, k + 1, RepairOne(t, targets[k], declared).tree)
  {
    RepairModes(t, targets[k], declared);
  }

  lemma {:induction false} RepairsAsk(t0: Tree, targets: seq<Target>, declared: seq<Target>, n: nat)
    requires Closed(t0) && n <= |targets| && RepairAll(t0, targets[..n], declared).ok && Workable(targets)
    ensures ModesAsked(t0, targets, declared, n, TreeAfter(t0, targets, declared, n))
  {
    if n > 0 {
      var k: nat := n - 1;
      assert targets[..n] == targets[..k + 1];
      LogOn(t0, targets, declared, k);
      RepairsAsk(t0, targets, declared, k);
      RepairsKeep(t0, targets, declared, k);
      ModesAskedOn(t0, targets, declared, k, TreeAfter(t0, targets, declared, k));
    }
  }

  lemma {:induction false} Later(t0: Tree, targets: seq<Target>, declared: seq<Target>, j: nat, k: nat)
    requires Closed(t0) && j <= k <= |targets| && RepairAll(t0, targets[..k], declared).ok
    ensures RepairAll(t0, targets[..j], declared).ok
    ensures TreeAfter(t0, targets, declared, j).Keys <= TreeAfter(t0, targets, declared, k).Keys
    decreases k - j
  {
    if j < k {
      var i: nat := k - 1;
      assert targets[..k] == targets[..i + 1];
      LogOn(t0, targets, declared, i);
      RepairsKeep(t0, targets, declared, i);
      RepairKeeps(TreeAfter(t0, targets, declared, i), targets[i], declared);
      Later(t0, targets, declared, j, i);
    }
  }

  // ---------------------------------------------------------------- what the undo takes

  /** Target k made c, so its undo removes a: a is c itself, or lies below it and what c was made in
      can be read. */
  ghost predicate Takes(t0: Tree, targets: seq<Target>, declared: seq<Target>, k: nat, a: Path)
    requires k < |targets|
  {
    var c := targets[k].path;
    && c != [] && c !in TreeAfter(t0, targets, declared, k) && AtOrAbove(c, a)
    && (c == a || CanRead(TreeAfter(t0, targets, declared, k + 1), Parent(c)))
  }

  ghost predicate Taken(t0: Tree, targets: seq<Target>, declared: seq<Target>, n: nat, a: Path)
    requires n <= |targets|
  {
    exists k :: 0 <= k < n && Takes(t0, targets, declared, k, a)
  }

  ghost predicate AllTaken(t0: Tree, targets: seq<Target>, declared: seq<Target>, n: nat, u: Tree)
    requires n <= |targets|
  {
    forall a :: a in u && a !in t0 ==> Taken(t0, targets, declared, n, a)
  }

  lemma TakenOn(t0: Tree, targets: seq<Target>, declared: seq<Target>, k: nat, a: Path)
    requires k < |targets|
    ensures Taken(t0, targets, declared, k + 1, a)
       <==> Taken(t0, targets, declared, k, a) || Takes(t0, targets, declared, k, a)
  {
    if Taken(t0, targets, declared, k, a) {
      var i :| 0 <= i < k && Takes(t0, targets, declared, i, a);
      assert i < k + 1;
    }
  }

  /** Nobody else takes what lies below a creation whose directory cannot be read. */
  lemma NotTakenBelow(t0: Tree, targets: seq<Target>, declared: seq<Target>, k: nat, a: Path)
    requires Closed(t0) && k < |targets| && RepairAll(t0, targets[..k + 1], declared).ok && Workable(targets)
    requires var p := targets[k].path;
             && p != [] && p !in TreeAfter(t0, targets, declared, k) && Above(p, a)
             && !CanRead(TreeAfter(t0, targets, declared, k + 1), Parent(p))
    ensures !Taken(t0, targets, declared, k + 1, a)
  {
    var p := targets[k].path;
    RepairsKeep(t0, targets, declared, k + 1);
    RepairsAsk(t0, targets, declared, k + 1);
    forall i | 0 <= i < k + 1 ensures !Takes(t0, targets, declared, i, a) {
      if Takes(t0, targets, declared, i, a) && i < k {
        var c := targets[i].path;
        Later(t0, targets, declared, k, k + 1);
        Later(t0, targets, declared, i, k);
        RepairsKeep(t0, targets, declared, i);
        RepairsKeep(t0, targets, declared, k);
        TopOfTwo(t0, TreeAfter(t0, targets, declared, k), c, p, a);
      }
    }
  }

  lemma TopOfTwo(t0: Tree, t: Tree, c: Path, p: Path, a: Path)
    requires Closed(t0) && Closed(t) && c !in t0 && c in t && p !in t && p != [] && AtOrAbove(c, a) && Above(p, a)
    ensures AtOrAbove(c, Parent(p)) && Parent(p) !in t0
  {
    if |c| >= |p| {
      assert p <= c;
      if p != c { AncestorIsDir(t, c, p); }
    } else {
      assert c <= Parent(p);
      if Parent(p) in t0 && c != Parent(p) { AncestorIsDir(t0, Parent(p), c); }
    }
  }

  /** Undoing one more target: where it works, what is left to be taken is taken by the others. */
  lemma TakeStep(t0: Tree, targets: seq<Target>, declared: seq<Target>, k: nat, u: Tree, back: Outcome)
    requires Closed(t0) && k < |targets| && RepairAll(t0, targets[..k + 1], declared).ok && Workable(targets)
    requires Amid(TreeAfter(t0, targets, declared, k + 1), u)
    requires StepBack(TreeAfter(t0, targets, declared, k), targets[k].path,
                      TreeAfter(t0, targets, declared, k + 1), u, back)
    ensures back.ok ==> (AllTaken(t0, targets, declared, k, back.tree) <==> AllTaken(t0, targets, declared, k + 1, u))
    ensures !back.ok ==> !AllTaken(t0, targets, declared, k + 1, u)
  {
    var p, t := targets[k].path, TreeAfter(t0, targets, declared, k);
    RepairsKeep(t0, targets, declared, k + 1);
    Later(t0, targets, declared, k, k + 1);
    RepairsKeep(t0, targets, declared, k);
    forall a ensures Taken(t0, targets, declared, k + 1, a)
                <==> Taken(t0, targets, declared, k, a) || Takes(t0, targets, declared, k, a) {
      TakenOn(t0, targets, declared, k, a);
    }
    if back.ok {
      forall a | a in u && a !in t0 && a !in back.tree ensures Takes(t0, targets, declared, k, a) {
        assert AtOrAbove(p, a);
        if a != p { assert Above(p, a); }
      }
      forall a | a in back.tree ensures a in u && !Takes(t0, targets, declared, k, a) {}
    } else {
      var a :| a in u && Above(p, a);
      if a in t0 { AncestorIsDir(t0, a, p); }
      NotTakenBelow(t0, targets, declared, k, a);
    }
  }

  /** The undo of the first n targets meets no error and ends in the first tree exactly when each path
      that was not there is taken. */
  lemma {:induction false} UndoExactly(t0: Tree, targets: seq<Target>, declared: seq<Target>, n: nat, u: Tree)
    requires Closed(t0) && n <= |targets| && RepairAll(t0, targets[..n], declared).ok
    requires Workable(targets) && PlainTouched(t0, targets, declared)
    requires Amid(TreeAfter(t0, targets, declared, n), u)
    ensures UndoAll(u, RepairAll(t0, targets[..n], declared).changes) == Outcome(true, t0)
       <==> AllTaken(t0, targets, declared, n, u)
    decreases n
  {
    if n == 0 {
      assert targets[..0] == [];
      if AllTaken(t0, targets, declared, 0, u) { assert u.Keys == t0.Keys; }
    } else {
      var k: nat := n - 1;
      assert targets[..n] == targets[..k + 1];
      LogOn(t0, targets, declared, k);
      RepairsPlain(t0, targets, declared, k);
      var before := RepairAll(t0, targets[..k], declared);
      var last := RepairOne(before.tree, targets[k], declared);
      PlainNext(t0, targets, declared, k, before.tree);
      OneUndoneAmid(before.tree, targets[k], declared, u);
      var back := UndoAll(u, last.changes);
      UndoConcat(u, before.changes, last.changes);
      TakeStep(t0, targets, declared, k, u, back);
      if back.ok { UndoExactly(t0, targets, declared, k, back.tree); }
    }
  }

  // ---------------------------------------------------------------- the same, read off the first tree

  /** What one repair adds to the tree. */
  lemma Additions(t: Tree, target: Target, declared: seq<Target>, a: Path)
    requires Closed(t) && RepairOne(t, target, declared).ok && a in RepairOne(t, target, declared).tree && a !in t
    ensures a == target.path || (target.kind.DirKind? && Above(a, target.path))
  {
    var r := RepairOne(t, target, declared);
    StatSpec(t, target.path);
    if target.kind.DirKind? {
      MakeDirsSpec(t, target.path, target.mode);
    } else {
      FileUndone(t, target, declared);
    }
  }

  /** What can be read where target k made its path, in terms of the first tree. */
  lemma ReadableIn(t0: Tree, targets: seq<Target>, declared: seq<Target>, k: nat)
    requires Closed(t0) && k < |targets| && RepairAll(t0, targets[..k + 1], declared).ok && Workable(targets)
    requires targets[k].path != [] && targets[k].path !in t0
    ensures var d := Parent(targets[k].path);
            CanRead(TreeAfter(t0, targets, declared, k + 1), d)
            <==> (d !in t0 || Listable(Asked(targets, declared, k + 1, d, t0[d].mode)))
  {
    RepairsAsk(t0, targets, declared, k + 1);
    RepairsKeep(t0, targets, declared, k + 1);
    assert DirAt(TreeAfter(t0, targets, declared, k + 1), Parent(targets[k].path));
  }

  lemma TakerCovers(t0: Tree, targets: seq<Target>, declared: seq<Target>, k: nat, a: Path)
    requires Closed(t0) && k < |targets| && RepairAll(t0, targets, declared).ok && Workable(targets)
    requires Takes(t0, targets, declared, k, a)
    ensures Covers(t0, targets, declared, k, a)
  {
    assert targets[..|targets|] == targets;
    Later(t0, targets, declared, k, |targets|);
    Later(t0, targets, declared, k + 1, |targets|);
    RepairsKeep(t0, targets, declared, k);
    ReadableIn(t0, targets, declared, k);
  }

  /** A path that is new among the first n targets and taken by some target is taken by one of them. */
  lemma TakenEarlier(t0: Tree, targets: seq<Target>, declared: seq<Target>, i: nat, k: nat, a: Path)
    requires Closed(t0) && i < |targets| && k < |targets| && RepairAll(t0, targets, declared).ok
    requires Above(a, targets[i].path) && Takes(t0, targets, declared, k, a)
    ensures k < i
  {
    assert targets[..|targets|] == targets;
    var c := targets[k].path;
    Later(t0, targets, declared, k, |targets|);
    RepairsKeep(t0, targets, declared, k);
    assert c <= a < targets[i].path;
    if k > i { AncestorIsDir(TreeAfter(t0, targets, declared, k), targets[i].path, c); }
  }

  lemma TakenIsCovered(t0: Tree, targets: seq<Target>, declared: seq<Target>)
    requires Closed(t0) && RepairAll(t0, targets, declared).ok && Workable(targets)
    requires AllTaken(t0, targets, declared, |targets|, RepairAll(t0, targets, declared).tree)
    ensures SilentCovered(t0, targets, declared)
  {
    assert targets[..|targets|] == targets;
    RepairsKeep(t0, targets, declared, |targets|);
    forall i, a | 0 <= i < |targets| && targets[i].kind.DirKind? && Above(a, targets[i].path) && a !in t0
      ensures CoveredBefore(t0, targets, declared, i, a)
    {
      AncestorIsDir(RepairAll(t0, targets, declared).tree, targets[i].path, a);
      var k :| 0 <= k < |targets| && Takes(t0, targets, declared, k, a);
      TakenEarlier(t0, targets, declared, i, k, a);
      TakerCovers(t0, targets, declared, k, a);
    }
  }

  /** A target that covers, and whose path is itself taken by target i, lets a path below be taken. */
  lemma CoverTakes(t0: Tree, targets: seq<Target>, declared: seq<Target>, i: nat, k: nat, a: Path)
    requires Closed(t0) && i <= k < |targets| && RepairAll(t0, targets[..k + 1], declared).ok && Workable(targets)
    requires Covers(t0, targets, declared, k, a) && targets[k].path != a
    requires Takes(t0, targets, declared, i, targets[k].path)
    ensures Takes(t0, targets, declared, i, a)
  {
    PrefixOfPrefix(targets[i].path, targets[k].path, a);
    if targets[i].path == targets[k].path {
      assert i == k;
      ReadableIn(t0, targets, declared, k);
    }
  }

  lemma PrefixOfPrefix(a: Path, b: Path, c: Path)
    requires AtOrAbove(a, b) && AtOrAbove(b, c)
    ensures AtOrAbove(a, c)
  {
  }

  lemma {:induction false} CoveredIsTaken(t0: Tree, targets: seq<Target>, declared: seq<Target>, n: nat, a: Path)
    requires Closed(t0) && n <= |targets| && RepairAll(t0, targets[..n], declared).ok && Workable(targets)
    requires SilentCovered(t0, targets, declared) && a in TreeAfter(t0, targets, declared, n) && a !in t0
    ensures Taken(t0, targets, declared, n, a)
    decreases n, 1
  {
    assert targets[..0] == [];
    if n > 0 {
      var k: nat := n - 1;
      assert targets[..n] == targets[..k + 1];
      LogOn(t0, targets, declared, k);
      RepairsKeep(t0, targets, declared, k);
      TakenOn(t0, targets, declared, k, a);
      if a in TreeAfter(t0, targets, declared, k) {
        CoveredIsTaken(t0, targets, declared, k, a);
      } else {
        Additions(TreeAfter(t0, targets, declared, k), targets[k], declared, a);
        if a != targets[k].path { SilentIsTaken(t0, targets, declared, k, a); }
      }
    }
  }

  /** The covering target is taken itself, and so is what lies below it. */
  lemma SilentIsTaken(t0: Tree, targets: seq<Target>, declared: seq<Target>, n: nat, a: Path)
    requires Closed(t0) && n < |targets| && RepairAll(t0, targets[..n], declared).ok && Workable(targets)
    requires SilentCovered(t0, targets, declared)
    requires targets[n].kind.DirKind? && Above(a, targets[n].path) && a !in t0
               && a !in TreeAfter(t0, targets, declared, n)
    ensures Taken(t0, targets, declared, n, a)
    decreases n, 2
  {
    assert CoveredBefore(t0, targets, declared, n, a);
    var j :| 0 <= j < n && Covers(t0, targets, declared, j, a);
    CoveredThere(t0, targets, declared, j, n);
    CoveredIsTaken(t0, targets, declared, j + 1, targets[j].path);
    var i :| 0 <= i < j + 1 && Takes(t0, targets, declared, i, targets[j].path);
    CoverTakes(t0, targets, declared, i, j, a);
  }

  lemma CoveredThere(t0: Tree, targets: seq<Target>, declared: seq<Target>, j: nat, n: nat)
    requires Closed(t0) && j < n <= |targets| && RepairAll(t0, targets[..n], declared).ok
    ensures RepairAll(t0, targets[..j + 1], declared).ok
    ensures targets[j].path in TreeAfter(t0, targets, declared, j + 1)
    ensures targets[j].path in TreeAfter(t0, targets, declared, n)
  {
    Later(t0, targets, declared, j + 1, n);
    RepairsKeep(t0, targets, declared, j + 1);
  }

  /** Undoing only ever gives permission bits. */
  lemma {:induction false} UndoLowers(t: Tree, changes: seq<Entry>, q: Path)
    requires q in t && t[q].mode < 512 && forall e :: e in changes ==> e.beforeMode < 512
    ensures q in UndoAll(t, changes).tree ==> UndoAll(t, changes).tree[q].mode < 512
    decreases |changes|
  {
    if changes != [] {
      var e := changes[|changes| - 1];
      var t1 := UndoEntry(t, e).tree;
      if q in t1 {
        UndoLowers(t1, changes[..|changes| - 1], q);
      } else {
        UndoOnlyShrinks(t1, changes[..|changes| - 1], q);
      }
    }
  }

  lemma {:induction false} UndoOnlyShrinks(t: Tree, changes: seq<Entry>, q: Path)
    requires q !in t
    ensures q !in UndoAll(t, changes).tree
    decreases |changes|
  {
    if changes != [] {
      UndoOnlyShrinks(UndoEntry(t, changes[|changes| - 1]).tree, changes[..|changes| - 1], q);
    }
  }

  lemma {:induction false} LogIsPlain(t0: Tree, targets: seq<Target>, declared: seq<Target>)
    ensures forall e :: e in RepairAll(t0, targets, declared).changes ==> e.beforeMode < 512
    decreases |targets|
  {
    if targets != [] { LogIsPlain(t0, targets[..|targets| - 1], declared); }
  }

  lemma PlainNeeded(t0: Tree, targets: seq<Target>, declared: seq<Target>)
    requires Closed(t0) && RepairAll(t0, targets, declared).ok && Workable(targets)
    requires var r := RepairAll(t0, targets, declared); UndoAll(r.tree, r.changes).tree == t0
    ensures PlainTouched(t0, targets, declared)
  {
    assert targets[..|targets|] == targets;
    RepairsPlain(t0, targets, declared, |targets|);
    LogIsPlain(t0, targets, declared);
    var r := RepairAll(t0, targets, declared);
    forall q | q in t0 && TouchedBy(targets, declared, |targets|, q) ensures t0[q].mode < 512 {
      UndoLowers(r.tree, r.changes, q);
    }
  }

  /** For lists whose directory targets have modes the owner can work with: undoing the log in reverse
      meets no error and gives the tree back exactly when every directory made silently lies at or
      below a missing target listed before, which was made where the owner can read, and no
      touched path had bits above 0777. Both can be checked before the run. */
  lemma WhichListsAreUndone(t0: Tree, targets: seq<Target>, declared: seq<Target>)
    requires Closed(t0) && RepairAll(t0, targets, declared).ok && Workable(targets)
    ensures var r := RepairAll(t0, targets, declared);
            (UndoAll(r.tree, r.changes) == Outcome(true, t0)
             <==> SilentCovered(t0, targets, declared) && PlainTouched(t0, targets, declared))
  {
    assert targets[..|targets|] == targets;
    var r := RepairAll(t0, targets, declared);
    RepairsKeep(t0, targets, declared, |targets|);
    if UndoAll(r.tree, r.changes) == Outcome(true, t0) { PlainNeeded(t0, targets, declared); }
    if PlainTouched(t0, targets, declared) {
      UndoExactly(t0, targets, declared, |targets|, r.tree);
      if SilentCovered(t0, targets, declared) {
        forall a | a in r.tree && a !in t0 ensures Taken(t0, targets, declared, |targets|, a) {
          CoveredIsTaken(t0, targets, declared, |targets|, a);
        }
      } else if AllTaken(t0, targets, declared, |targets|, r.tree) {
        TakenIsCovered(t0, targets, declared);
      }
    }
  }

  // ---------------------------------------------------------------- the manifest

  /** writePermissionRollbackManifest: nothing is written for an empty log. */
  function WriteManifest(t: Tree, changes: seq<Entry>, place: Place, text: string): Outcome {
    if changes == [] then Outcome(true, t) else Manifests.Write(t, place, text)
  }

  /** The targets are paths away from the manifest. */
  ghost predicate AllElsewhere(place: Place, targets: seq<Target>) {
    forall i :: 0 <= i < |targets| ==> Elsewhere(place, targets[i].path)
  }

  // ---------------------------------------------------------------- the undo beside the manifest

  /** One segment below the root: a path elsewhere has nothing in it below, apart from the root. */
  lemma ApartBelow(area: Path, p: Path, q: Path)
    requires |area| == 1 && p != [] && !AtOrAbove(area, p) && (AtOrAbove(p, q) || AtOrAbove(q, p))
    ensures !AtOrAbove(area, q)
  {
  }

  lemma RemoveAgrees(area: Path, t: Tree, u: Tree, p: Path)
    requires Closed(t) && Closed(u) && |area| == 1 && AgreeOutside(area, t, u) && !AtOrAbove(area, p)
    ensures RemoveTree(t, p).ok == RemoveTree(u, p).ok
              && AgreeOutside(area, RemoveTree(t, p).tree, RemoveTree(u, p).tree)
  {
    forall q | AtOrAbove(q, p) ensures !AtOrAbove(area, q) { if p != [] { ApartBelow(area, p, q); } }
    StatFromAgrees(t, u, p, 0);
    if p != [] {
      forall q | AtOrAbove(p, q) ensures (q in t <==> q in u) && (q in t ==> t[q] == u[q]) { ApartBelow(area, p, q); }
      assert AtOrAbove(Parent(p), p);
      assert HasBelow(t, p) <==> HasBelow(u, p);
      RemovableAgrees(t, u, p);
      forall q | AtOrAbove(p, q) && q in t ensures Goes(t, p, q) <==> Goes(u, p, q) {
        GoesAgrees(t, u, p, q);
      }
    }
  }

  /** Trees that agree on a path, on its parent and on everything below it. */
  ghost predicate AgreeAt(t: Tree, u: Tree, p: Path)
    requires p != []
  {
    && ((Parent(p) in t <==> Parent(p) in u) && (Parent(p) in t ==> t[Parent(p)] == u[Parent(p)]))
    && forall q :: AtOrAbove(p, q) ==> (q in t <==> q in u) && (q in t ==> t[q] == u[q])
  }

  lemma RemovableAgrees(t: Tree, u: Tree, p: Path)
    requires p != [] && AgreeAt(t, u, p)
    ensures Removable(t, p) <==> Removable(u, p)
  {
    forall q | Above(p, q)
      ensures (q in t <==> q in u)
      ensures (CanEdit(t, Parent(q)) <==> CanEdit(u, Parent(q))) && (CanRead(t, Parent(q)) <==> CanRead(u, Parent(q)))
    {
      assert AtOrAbove(p, Parent(q)) && AtOrAbove(p, q);
    }
  }

  lemma GoesAgrees(t: Tree, u: Tree, p: Path, q: Path)
    requires p != [] && AgreeAt(t, u, p) && AtOrAbove(p, q)
    ensures Goes(t, p, q) <==> Goes(u, p, q)
  {
    forall k | |p| <= k < |q| ensures CanRead(t, q[..k]) == CanRead(u, q[..k])
        && CanSearch(t, q[..k]) == CanSearch(u, q[..k]) {
      assert AtOrAbove(p, q[..k]);
    }
    if q != p { assert AtOrAbove(p, Parent(q)); }
    forall x | AtOrAbove(q, x) ensures AtOrAbove(p, x) { assert p <= q <= x; }
    RemovableAgrees(t, u, q);
  }

  lemma UndoEntryAgrees(area: Path, t: Tree, u: Tree, e: Entry)
    requires Closed(t) && Closed(u) && |area| == 1 && AgreeOutside(area, t, u) && !AtOrAbove(area, e.path)
    ensures Closed(UndoEntry(t, e).tree) && Closed(UndoEntry(u, e).tree)
    ensures UndoEntry(t, e).ok == UndoEntry(u, e).ok
    ensures AgreeOutside(area, UndoEntry(t, e).tree, UndoEntry(u, e).tree)
  {
    if e.beforeExists {
      forall q | AtOrAbove(q, e.path) ensures !AtOrAbove(area, q) {
        if e.path != [] { ApartBelow(area, e.path, q); }
      }
      StatFromAgrees(t, u, e.path, 0);
      SetModeSpec(t, e.path, e.beforeMode);
      SetModeSpec(u, e.path, e.beforeMode);
    } else {
      RemoveTreeSpec(t, e.path);
      RemoveTreeSpec(u, e.path);
      RemoveAgrees(area, t, u, e.path);
    }
  }

  /** The manifest does not disturb the undo. */
  lemma {:induction false} UndoAgrees(area: Path, t: Tree, u: Tree, changes: seq<Entry>)
    requires Closed(t) && Closed(u) && |area| == 1 && AgreeOutside(area, t, u)
    requires forall e :: e in changes ==> !AtOrAbove(area, e.path)
    ensures UndoAll(t, changes).ok == UndoAll(u, changes).ok
    ensures AgreeOutside(area, UndoAll(t, changes).tree, UndoAll(u, changes).tree)
    decreases |changes|
  {
    if changes != [] {
      var e := changes[|changes| - 1];
      assert e in changes;
      UndoEntryAgrees(area, t, u, e);
      UndoAgrees(area, UndoEntry(t, e).tree, UndoEntry(u, e).tree, changes[..|changes| - 1]);
    }
  }

  ghost predicate AgreeInside(area: Path, a: Tree, b: Tree) {
    forall q :: AtOrAbove(area, q) ==> (q in a <==> q in b) && (q in a ==> a[q] == b[q])
  }

  lemma UndoEntryElsewhere(area: Path, t: Tree, e: Entry)
    requires Closed(t) && |area| == 1 && !AtOrAbove(area, e.path)
    ensures Closed(UndoEntry(t, e).tree) && AgreeInside(area, t, UndoEntry(t, e).tree)
  {
    SetModeSpec(t, e.path, e.beforeMode);
    RemoveTreeSpec(t, e.path);
    forall q | AtOrAbove(area, q) ensures e.path == [] || !AtOrAbove(e.path, q) {
      if e.path != [] && AtOrAbove(e.path, q) { ApartBelow(area, e.path, q); }
    }
  }

  lemma {:induction false} UndoElsewhere(area: Path, t: Tree, changes: seq<Entry>)
    requires Closed(t) && |area| == 1 && forall e :: e in changes ==> !AtOrAbove(area, e.path)
    ensures AgreeInside(area, t, UndoAll(t, changes).tree)
    decreases |changes|
  {
    if changes != [] {
      var e := changes[|changes| - 1];
      assert e in changes;
      UndoEntryElsewhere(area, t, e);
      UndoElsewhere(area, UndoEntry(t, e).tree, changes[..|changes| - 1]);
    }
  }

  /** A repair stays away from the area too, and so does its log. */
  lemma RepairElsewhere(area: Path, t: Tree, target: Target, declared: seq<Target>)
    requires Closed(t) && |area| == 1 && !AtOrAbove(area, target.path) && RepairOne(t, target, declared).ok
    ensures var r := RepairOne(t, target, declared);
            AgreeInside(area, t, r.tree) && forall e :: e in r.changes ==> !AtOrAbove(area, e.path)
  {
    var r, parent := RepairOne(t, target, declared), ParentToSearch(target, declared);
    assert parent.Some? ==> Above(parent.value, target.path);
    if parent.Some? && AtOrAbove(area, parent.value) { assert area <= parent.value <= target.path; }
    RepairKeeps(t, target, declared);
    forall q | AtOrAbove(area, q) ensures (q in t <==> q in r.tree) && (q in t ==> r.tree[q] == t[q]) {
      if q in r.tree && q !in t {
        Additions(t, target, declared, q);
      }
      if target.kind.DirKind? { DirUndone(t, target.path, target.mode); } else { FileRepaired(t, target, declared); }
    }
  }

  lemma {:induction false} RepairsElsewhere(area: Path, t0: Tree, targets: seq<Target>, declared: seq<Target>, n: nat)
    requires Closed(t0) && |area| == 1 && n <= |targets| && RepairAll(t0, targets[..n], declared).ok
    requires forall i :: 0 <= i < n ==> !AtOrAbove(area, targets[i].path)
    ensures var r := RepairAll(t0, targets[..n], declared);
            AgreeInside(area, t0, r.tree) && forall e :: e in r.changes ==> !AtOrAbove(area, e.path)
  {
    if n > 0 {
      var k: nat := n - 1;
      assert targets[..n] == targets[..k + 1];
      LogOn(t0, targets, declared, k);
      RepairsKeep(t0, targets, declared, k);
      RepairsElsewhere(area, t0, targets, declared, k);
      RepairElsewhere(area, TreeAfter(t0, targets, declared, k), targets[k], declared);
    }
  }

  /** With the manifest written in between, the undo ends as it would without, apart from the manifest. */
  lemma UndoBesideManifest(t0: Tree, targets: seq<Target>, declared: seq<Target>, place: Place, text: string)
    requires Closed(t0) && RepairAll(t0, targets, declared).ok && AllElsewhere(place, targets)
    ensures var r := RepairAll(t0, targets, declared);
            var back := UndoAll(WriteManifest(r.tree, r.changes, place, text).tree, r.changes);
            back.ok && SameBesides(place, t0, back.tree) <==> UndoAll(r.tree, r.changes) == Outcome(true, t0)
  {
    assert targets[..|targets|] == targets;
    RepairsKeep(t0, targets, declared, |targets|);
    var r := RepairAll(t0, targets, declared);
    ManifestAgrees(r.tree, place, text);
    if place.Inside? {
      var area, m := Area(place), WriteManifest(r.tree, r.changes, place, text).tree;
      RepairsElsewhere(area, t0, targets, declared, |targets|);
      UndoAgrees(area, r.tree, m, r.changes);
      UndoElsewhere(area, r.tree, r.changes);
      var clean, back := UndoAll(r.tree, r.changes).tree, UndoAll(m, r.changes).tree;
      if AgreeOutside(area, t0, back) {
        forall q ensures (q in clean <==> q in t0) && (q in clean ==> clean[q] == t0[q]) {
          if AtOrAbove(area, q) { assert AgreeInside(area, t0, r.tree) && AgreeInside(area, r.tree, clean); }
        }
        assert clean == t0;
      }
    }
  }

  ghost predicate AllInPlace(t: Tree, targets: seq<Target>) {
    forall i :: 0 <= i < |targets| ==> InPlace(t, targets, |targets|, i)
  }

  /** All targets are in place after the repair, and the manifest does not change that. */
  lemma InPlaceBesideManifest(t0: Tree, targets: seq<Target>, place: Place, text: string)
    requires Closed(t0) && RepairAll(t0, targets, targets).ok
    ensures var r := RepairAll(t0, targets, targets);
            AllInPlace(WriteManifest(r.tree, r.changes, place, text).tree, targets)
  {
    assert targets[..|targets|] == targets;
    var r := RepairAll(t0, targets, targets).tree;
    RepairsKeep(t0, targets, targets, |targets|);
    TargetsInPlace(t0, targets, |targets|);
    ManifestKeeps(r, place, text);
    forall i | 0 <= i < |targets|
      ensures InPlace(Manifests.Write(r, place, text).tree, targets, |targets|, i)
    {
      assert InPlace(r, targets, |targets|, i);
    }
  }

  datatype Status = Refused | ManifestFailed | Resolved | RolledBack | RollbackFailed

  /** The local branch of resolvePermissionDrift. The live probe is the caller's. A failed repair, and a
      manifest that cannot be written, return at once without an undo, and the manifest stays
      whatever happens. A restart needs a container, which the local branch does not have. */
  method ResolvePermissionDrift(disk: Disk, targets: seq<Target>, place: Place, encode: seq<Entry> -> string,
                                probeOk: bool)
    returns (status: Status)
    requires Closed(disk.tree)
    modifies disk
    ensures var r := RepairAll(old(disk.tree), targets, targets);
            var m := WriteManifest(r.tree, r.changes, place, encode(r.changes));
            && (status == Refused <==> !r.ok)
            && (status == ManifestFailed <==> r.ok && !m.ok)
            && (status == Resolved <==> r.ok && m.ok && probeOk)
            && (status == Refused ==> disk.tree == r.tree)
            && (status in {ManifestFailed, Resolved} ==> disk.tree == m.tree && SameBesides(place, r.tree, disk.tree))
            && (status in {RolledBack, RollbackFailed} ==>
                  Outcome(status == RolledBack, disk.tree) == UndoAll(m.tree, r.changes))
    ensures var r := RepairAll(old(disk.tree), targets, targets);
            var m := Manifests.Write(r.tree, place, encode(r.changes));
            && (status == ManifestFailed <==> r.ok && r.changes != [] && !m.ok)
            && (status == Resolved ==> disk.tree == if r.changes == [] then r.tree else m.tree)
    ensures status == Resolved ==> AllInPlace(disk.tree, targets)
    ensures status in {RolledBack, RollbackFailed} && AllElsewhere(place, targets) ==>
              (ParentsFirst(old(disk.tree), targets, targets) ==>
                 status == RolledBack && SameBesides(place, old(disk.tree), disk.tree))
    ensures status in {RolledBack, RollbackFailed} && AllElsewhere(place, targets) && Workable(targets) ==>
              (status == RolledBack && SameBesides(place, old(disk.tree), disk.tree)
               <==> SilentCovered(old(disk.tree), targets, targets) && PlainTouched(old(disk.tree), targets, targets))
  {
    ghost var t0 := disk.tree;
    var changes: seq<Entry> := [];
    for i := 0 to |targets|
      invariant RepairAll(t0, targets[..i], targets) == Repair(true, disk.tree, changes)
    {
      assert targets[..i + 1][..i] == targets[..i];
      var ok, more := RepairLocalPermissions(disk, targets[i], targets);
      if !ok {
        RepairStops(t0, targets, i + 1, targets);
        return Refused;
      }
      changes := changes + more;
    }
    assert targets[..|targets|] == targets;
    RepairsKeep(t0, targets, targets, |targets|);
    ManifestAgrees(disk.tree, place, encode(changes));
    var written := WriteManifest(disk.tree, changes, place, encode(changes));
    disk.tree := written.tree;
    if !written.ok { return ManifestFailed; }
    if probeOk {
      InPlaceBesideManifest(t0, targets, place, encode(changes));
      return Resolved;
    }
    if AllElsewhere(place, targets) { UndoBesideManifest(t0, targets, targets, place, encode(changes)); }
    if ParentsFirst(t0, targets, targets) { UndoRestoresAll(t0, targets, targets); }
    if Workable(targets) { WhichListsAreUndone(t0, targets, targets); }
    var undone := RollbackPermissionChanges(disk, changes);
    return if undone then RolledBack else RollbackFailed;
  }

  // ---------------------------------------------------------------- what cannot be read stays

  const A: Path := ["a"]
  const AB: Path := ["a", "b"]
  const ABC: Path := ["a", "b", "c"]
  const MODE_0300: nat := 192
  const TREE0: Tree := map[[] := Dir(MODE_0755)]
  const TREE1: Tree := map[[] := Dir(MODE_0755), A := Dir(MODE_0300)]
  const TREE2: Tree := map[[] := Dir(MODE_0755), A := Dir(MODE_0300), AB := Dir(MODE_0300)]
  const TREE3: Tree := map[[] := Dir(MODE_0755), A := Dir(MODE_0300), AB := Dir(MODE_0300), ABC := Dir(MODE_0300)]
  const UNREADABLE := [Target(A, DirKind, "write", MODE_0300), Target(ABC, DirKind, "write", MODE_0300)]

  lemma Chain()
    ensures Parent(A) == [] && Parent(AB) == A && Parent(ABC) == AB
    ensures Closed(TREE0) && Closed(TREE1) && Closed(TREE2) && Closed(TREE3)
    ensures forall q :: Above(q, A) <==> q == []
    ensures forall q :: Above(q, AB) <==> q == [] || q == A
    ensures forall q :: Above(q, ABC) <==> q == [] || q == A || q == AB
  {
    assert Parent(A) == [] && Parent(AB) == A && Parent(ABC) == AB;
    forall q ensures Above(q, AB) <==> q == [] || q == A { if Above(q, AB) && |q| == 1 { assert q == AB[..1]; } }
    forall q ensures Above(q, ABC) <==> q == [] || q == A || q == AB {
      if Above(q, ABC) { assert q == ABC[..|q|] && ABC[..1] == A && ABC[..2] == AB; }
    }
  }

  lemma ChainSeen()
    ensures Stat(TREE0, A).Missing? && Stat(TREE1, A) == Found(Dir(MODE_0300))
    ensures Stat(TREE1, AB).Missing? && Stat(TREE1, ABC).Missing?
    ensures Stat(TREE2, A) == Found(Dir(MODE_0300)) && Stat(TREE3, ABC) == Found(Dir(MODE_0300))
  {
    Chain();
    StatSpec(TREE1, A);
    StatSpec(TREE2, A);
    StatSpec(TREE3, ABC);
    assert A[..0] == [] && A[..1] == A;
    assert StatFrom(TREE0, A, 1).Missing?;
    assert AB[..0] == [] && AB[..1] == A && AB[..2] == AB;
    assert StatFrom(TREE1, AB, 2).Missing? && StatFrom(TREE1, AB, 1).Missing?;
    assert ABC[..0] == [] && ABC[..1] == A && ABC[..2] == AB;
    assert StatFrom(TREE1, ABC, 2).Missing? && StatFrom(TREE1, ABC, 1).Missing?;
  }

  lemma ChainRepaired()
    ensures RepairDir(TREE0, A, MODE_0300) == Repair(true, TREE1, [Entry(A, false, 0)])
    ensures RepairDir(TREE1, ABC, MODE_0300) == Repair(true, TREE3, [Entry(ABC, false, 0)])
  {
    Chain();
    ChainSeen();
    assert TREE0[A := Dir(MODE_0300)] == TREE1;
    assert MakeDirs(TREE0, [], MODE_0300) == Outcome(true, TREE0);
    assert MakeDirs(TREE0, A, MODE_0300) == Outcome(true, TREE1);
    SetModeSpec(TREE1, A, MODE_0300);
    assert TREE1[A := Dir(MODE_0300)] == TREE1;
    assert TREE1[AB := Dir(MODE_0300)] == TREE2;
    assert MakeDirs(TREE1, AB, MODE_0300) == Outcome(true, TREE2);
    assert TREE2[ABC := Dir(MODE_0300)] == TREE3;
    assert MakeDirs(TREE1, ABC, MODE_0300) == Outcome(true, TREE3);
    SetModeSpec(TREE3, ABC, MODE_0300);
    assert TREE3[ABC := Dir(MODE_0300)] == TREE3;
  }

  lemma ChainUndone()
    ensures UndoEntry(TREE3, Entry(ABC, false, 0)) == Outcome(true, TREE2)
    ensures !UndoEntry(TREE2, Entry(A, false, 0)).ok && A in UndoEntry(TREE2, Entry(A, false, 0)).tree
  {
    Chain();
    ChainSeen();
    StatSpec(TREE3, ABC);
    RemoveLeaf(TREE3, ABC);
    assert TREE3 - {ABC} == TREE2;
    assert AB in TREE2 && Above(A, AB) && !CanRead(TREE2, A);
    assert !Removable(TREE2, A);
  }

  /** Directories of mode 0300 can be made and entered by their owner, but not emptied by os.RemoveAll:
      everything else the undo needs is given and the repair works, yet the undo meets an error
      and the first directory stays. */
  lemma UnreadableDirectoryStays()
    ensures Closed(TREE0) && PlainTouched(TREE0, UNREADABLE, UNREADABLE) && SilentCovered(TREE0, UNREADABLE, UNREADABLE)
    ensures !Workable(UNREADABLE)
    ensures var r := RepairAll(TREE0, UNREADABLE, UNREADABLE);
            && r == Repair(true, TREE3, [Entry(A, false, 0), Entry(ABC, false, 0)])
            && !UndoAll(r.tree, r.changes).ok && A in UndoAll(r.tree, r.changes).tree
  {
    Chain();
    ChainRepaired();
    ChainUndone();
    assert UNREADABLE[..1][..0] == [] && UNREADABLE[..1] == [UNREADABLE[0]];
    assert RepairAll(TREE0, UNREADABLE[..1], UNREADABLE) == Repair(true, TREE1, [Entry(A, false, 0)]);
    UndoPair(TREE3, Entry(A, false, 0), Entry(ABC, false, 0));
    assert [Entry(A, false, 0)] + [Entry(ABC, false, 0)] == [Entry(A, false, 0), Entry(ABC, false, 0)];
    UnreadableCovered();
  }

  lemma UnreadableCovered()
    ensures SilentCovered(TREE0, UNREADABLE, UNREADABLE)
  {
    Chain();
    forall i, a | 0 <= i < 2 && Above(a, UNREADABLE[i].path) && a !in TREE0
      ensures CoveredBefore(TREE0, UNREADABLE, UNREADABLE, i, a)
    {
      assert i == 1 && AtOrAbove(A, a);
      assert Asked(UNREADABLE, UNREADABLE, 1, [], MODE_0755) == MODE_0755;
      assert Covers(TREE0, UNREADABLE, UNREADABLE, 0, a);
    }
  }
}
