/** The part of the file system the engine edits, below one fixed root directory.
    Paths are lists of segments, the root itself is []. Every operation is the
    function of the tree that the operating system call computes; an operation
    that fails says so and still gives the tree it leaves behind. */
module FileTree {
  import opened Wrappers

  type Path = seq<string>

  datatype Node = Dir(mode: nat) | File(content: string, mode: nat)

  type Tree = map<Path, Node>

  datatype Outcome = Outcome(ok: bool, tree: Tree)

  /** The cell that the imperative code updates in place. */
  class Disk {
    var tree: Tree

    constructor (initial: Tree)
      ensures tree == initial
    {
      tree := initial;
    }
  }

  const MODE_0755: nat := 493
  const MODE_0644: nat := 420
  const MODE_0600: nat := 384

  /** The engine's own directory below the root. */
  const BACKUPS := ".ai-logfixer-backups"

  /** What os.FileMode.Perm keeps of a mode, by taking off the bits above 0777: set-user-id,
      set-group-id and sticky. */
  function Perm(mode: nat): (r: nat)
    ensures r < 512
    ensures mode < 512 ==> r == mode
  {
    if mode < 512 then mode else Perm(mode - 512)
  }

  lemma {:induction false} PermIsRemainder(mode: nat)
    ensures Perm(mode) == mode % 512
  {
    if mode >= 512 { PermIsRemainder(mode - 512); }
  }

  function Parent(p: Path): Path
    requires p != []
  {
    p[..|p| - 1]
  }

  /** q is a proper ancestor of p. */
  predicate Above(q: Path, p: Path) {
    q < p
  }

  predicate AtOrAbove(q: Path, p: Path) {
    q <= p
  }

  /** Every node but the root sits in a directory of the tree. */
  ghost predicate Closed(t: Tree) {
    && [] in t
    && t[[]].Dir?
    && forall p {:trigger Parent(p)} :: p in t && p != [] ==> DirAt(t, Parent(p))
  }

  /** The two trees may differ only at or below `area`. */
  ghost predicate AgreeOutside(area: Path, a: Tree, b: Tree) {
    forall p :: !AtOrAbove(area, p) ==> (p in a <==> p in b) && (p in a ==> a[p] == b[p])
  }

  function FileAt(t: Tree, p: Path): Option<string> {
    if p in t && t[p].File? then Some(t[p].content) else None
  }

  predicate DirAt(t: Tree, p: Path) {
    p in t && t[p].Dir?
  }

  /** os.MkdirAll: an existing directory is left alone, a file in the way is an error. */
  function MkdirAll(t: Tree, p: Path, mode: nat): Outcome
    decreases |p|
  {
    if p in t then Outcome(t[p].Dir?, t)
    else if p == [] then Outcome(false, t)
    else
      var up := MkdirAll(t, Parent(p), mode);
      if up.ok then Outcome(true, up.tree[p := Dir(mode)]) else up
  }

  /** os.OpenFile with O_CREATE and O_TRUNC followed by one write: an existing file keeps its mode. */
  function WriteFile(t: Tree, p: Path, content: string, mode: nat): Outcome {
    if p in t then
      if t[p].File? then Outcome(true, t[p := File(content, t[p].mode)]) else Outcome(false, t)
    else if p != [] && DirAt(t, Parent(p)) then Outcome(true, t[p := File(content, mode)])
    else Outcome(false, t)
  }

  /** Create the parent directories, then write the file. */
  function Put(t: Tree, dst: Path, content: string, mode: nat): Outcome {
    if dst == [] then Outcome(false, t)
    else
      var up := MkdirAll(t, Parent(dst), MODE_0755);
      if up.ok then WriteFile(up.tree, dst, content, mode) else up
  }

  /** Copy one file inside the tree. The destination is truncated before the source is
      read, so copying a file onto itself empties it. */
  function CopyFile(t: Tree, src: Path, dst: Path, mode: nat): Outcome {
    if src !in t then Outcome(false, t)
    else if t[src].Dir? then Outcome(false, Put(t, dst, "", mode).tree)
    else Put(t, dst, if src == dst then "" else t[src].content, mode)
  }

  /** os.Remove with a missing path tolerated: a directory goes only when it is empty. */
  function RemoveIfPresent(t: Tree, p: Path): Outcome {
    if p !in t then Outcome(forall k | 0 <= k < |p| :: FileAt(t, p[..k]).None?, t)
    else if t[p].Dir? && (p == [] || exists q :: q in t && Above(p, q)) then Outcome(false, t)
    else Outcome(true, t - {p})
  }

  /** os.RemoveAll: the path and everything below it. */
  function RemoveAll(t: Tree, p: Path): Tree {
    map q | q in t && !AtOrAbove(p, q) :: t[q]
  }

  /** os.Chmod: fails on a missing path. */
  function Chmod(t: Tree, p: Path, mode: nat): Outcome {
    if p !in t then Outcome(false, t)
    else Outcome(true, t[p := if t[p].Dir? then Dir(mode) else File(t[p].content, mode)])
  }

  lemma {:induction false} AncestorIsDir(t: Tree, p: Path, q: Path)
    requires Closed(t) && p in t && Above(q, p)
    ensures DirAt(t, q)
    decreases |p|
  {
    if q != Parent(p) {
      AncestorIsDir(t, Parent(p), q);
    }
  }

  /** Making a directory with its parents: exactly when it works and what it changes. */
  lemma {:induction false} MkdirAllSpec(t: Tree, p: Path, mode: nat)
    requires Closed(t)
    ensures var r := MkdirAll(t, p, mode);
            && (r.ok <==> forall q :: AtOrAbove(q, p) ==> FileAt(t, q).None?)
            && (!r.ok ==> r.tree == t)
            && (r.ok ==> Closed(r.tree))
            && (r.ok ==> forall q :: q in r.tree <==> q in t || AtOrAbove(q, p))
            && (r.ok ==> forall q :: q in r.tree ==> r.tree[q] == if q in t then t[q] else Dir(mode))
    decreases |p|
  {
    if p in t {
      forall q | AtOrAbove(q, p)
        ensures q in t && (q != p ==> t[q].Dir?)
      {
        if q != p { AncestorIsDir(t, p, q); }
      }
      assert AtOrAbove(p, p);
    } else {
      MkdirAllSpec(t, Parent(p), mode);
      assert forall q :: AtOrAbove(q, p) <==> q == p || AtOrAbove(q, Parent(p));
    }
  }

  /** Writing a file together with its parents, in terms of the files and directories seen. */
  lemma PutSpec(t: Tree, dst: Path, content: string, mode: nat)
    requires Closed(t) && dst != []
    ensures var r := Put(t, dst, content, mode);
            && (r.ok <==> !DirAt(t, dst) && forall q :: Above(q, dst) ==> FileAt(t, q).None?)
            && (!r.ok ==> r.tree == t)
            && (r.ok ==> Closed(r.tree))
            && (r.ok ==> forall q :: FileAt(r.tree, q) == if q == dst then Some(content) else FileAt(t, q))
            && (r.ok ==> forall q :: DirAt(r.tree, q) <==> DirAt(t, q) || Above(q, dst))
  {
    var up := MkdirAll(t, Parent(dst), MODE_0755);
    MkdirAllSpec(t, Parent(dst), MODE_0755);
    AboveParent(dst);
    assert AtOrAbove(Parent(dst), Parent(dst));
  }

  lemma AboveParent(p: Path)
    requires p != []
    ensures forall q :: Above(q, p) <==> AtOrAbove(q, Parent(p))
  {
  }

  lemma RemoveFileSpec(t: Tree, p: Path)
    requires Closed(t) && FileAt(t, p).Some?
    ensures var r := RemoveIfPresent(t, p);
            && r.ok && Closed(r.tree)
            && (forall q :: FileAt(r.tree, q) == if q == p then None else FileAt(t, q))
            && (forall q :: DirAt(r.tree, q) <==> DirAt(t, q))
  {
  }
}
