/** The same tree as a process sees it that owns every node but is not root: a path is seen only
    when every directory above it has its owner search bit, a directory is changed only when it
    has its write bit as well, and emptied only when it has its read bit besides. */
module Access {
  import opened FileTree

  /** The owner's search bit: the first octal digit of the permissions is odd. */
  predicate Searchable(mode: nat) {
    var p := Perm(mode);
    64 <= p < 128 || 192 <= p < 256 || 320 <= p < 384 || 448 <= p
  }

  /** The owner's write bit: the first octal digit is 2, 3, 6 or 7. */
  predicate Writable(mode: nat) {
    var p := Perm(mode);
    128 <= p < 256 || 384 <= p
  }

  /** The owner's read bit: the first octal digit is 4 or more. */
  predicate Listable(mode: nat) {
    256 <= Perm(mode)
  }

  predicate CanSearch(t: Tree, p: Path) {
    DirAt(t, p) && Searchable(t[p].mode)
  }

  predicate CanEdit(t: Tree, p: Path) {
    CanSearch(t, p) && Writable(t[p].mode)
  }

  predicate CanRead(t: Tree, p: Path) {
    DirAt(t, p) && Listable(t[p].mode)
  }

  datatype Seen = Missing | Denied | Found(node: Node)

  /** os.Stat, walking down from the root. */
  function StatFrom(t: Tree, p: Path, k: nat): Seen
    requires k <= |p|
    decreases |p| - k
  {
    if p[..k] !in t then Missing
    else if k == |p| then Found(t[p[..k]])
    else if CanSearch(t, p[..k]) then StatFrom(t, p, k + 1)
    else Denied
  }

  function Stat(t: Tree, p: Path): Seen {
    StatFrom(t, p, 0)
  }

  function MakeDirs(t: Tree, p: Path, mode: nat): Outcome
    decreases |p|
  {
    match Stat(t, p)
    case Found(node) => Outcome(node.Dir?, t)
    case _ =>
      if p == [] then Outcome(false, t)
      else
        var up := MakeDirs(t, Parent(p), mode);
        if up.ok && p !in up.tree && CanEdit(up.tree, Parent(p)) then Outcome(true, up.tree[p := Dir(mode)])
        else Outcome(false, up.tree)
  }

  function SetMode(t: Tree, p: Path, mode: nat): Outcome {
    if Stat(t, p).Found? then Chmod(t, p, mode) else Outcome(false, t)
  }

  /** os.OpenFile with O_CREATE and O_EXCL. */
  function CreateFile(t: Tree, p: Path, mode: nat): Outcome {
    if p != [] && Stat(t, p).Missing? && Stat(t, Parent(p)).Found? && CanEdit(t, Parent(p))
    then Outcome(true, t[p := File("", mode)])
    else Outcome(false, t)
  }

  predicate HasBelow(t: Tree, p: Path) {
    exists q {:trigger Above(p, q)} :: q in t && Above(p, q)
  }

  /** Nothing keeps the node at p, which is not the root, from being removed with all that is below
      it: the directories that hold any of it can be edited, and the ones to be emptied read. */
  predicate Removable(t: Tree, p: Path)
    requires p != []
  {
    && CanEdit(t, Parent(p))
    && forall q {:trigger Above(p, q)} :: q in t && Above(p, q) ==> CanEdit(t, Parent(q)) && CanRead(t, Parent(q))
  }

  /** os.RemoveAll comes as far down as q: every directory from p on can be read and searched. */
  predicate ComesTo(t: Tree, p: Path, q: Path) {
    AtOrAbove(p, q) && forall k | |p| <= k < |q| :: CanRead(t, q[..k]) && CanSearch(t, q[..k])
  }

  predicate Goes(t: Tree, p: Path, q: Path) {
    q != [] && ComesTo(t, p, q) && Removable(t, q)
  }

  /** os.RemoveAll: a missing path is fine. To empty a directory it opens the directory above for
      reading, then each directory on the way down; what cannot be removed stays. */
  function RemoveTree(t: Tree, p: Path): Outcome {
    match Stat(t, p)
    case Missing => Outcome(true, t)
    case Denied => Outcome(false, t)
    case Found(_) =>
      if p == [] || (HasBelow(t, p) && !CanRead(t, Parent(p))) then Outcome(false, t)
      else Outcome(Removable(t, p), map q | q in t && !Goes(t, p, q) :: t[q])
  }

  /** os.Remove with a missing path tolerated: a directory goes only when it is empty. */
  function RemoveOne(t: Tree, p: Path): Outcome {
    match Stat(t, p)
    case Missing => Outcome(true, t)
    case Denied => Outcome(false, t)
    case Found(node) =>
      if p == [] || !CanEdit(t, Parent(p)) || (node.Dir? && exists q {:trigger Above(p, q)} :: q in t && Above(p, q))
      then Outcome(false, t)
      else Outcome(true, t - {p})
  }

  /** os.WriteFile. */
  function SaveFile(t: Tree, p: Path, content: string, mode: nat): Outcome {
    match Stat(t, p)
    case Found(File(_, m)) => if Writable(m) then Outcome(true, t[p := File(content, m)]) else Outcome(false, t)
    case Missing =>
      if p != [] && Stat(t, Parent(p)).Found? && CanEdit(t, Parent(p)) then Outcome(true, t[p := File(content, mode)])
      else Outcome(false, t)
    case _ => Outcome(false, t)
  }

  // ---------------------------------------------------------------- what they do

  ghost predicate Reachable(t: Tree, p: Path) {
    forall q :: Above(q, p) ==> CanSearch(t, q)
  }

  lemma {:induction false} StatFromSpec(t: Tree, p: Path, k: nat)
    requires Closed(t) && k <= |p| && forall j :: 0 <= j < k ==> CanSearch(t, p[..j])
    ensures StatFrom(t, p, k).Found? <==> p in t && forall j :: 0 <= j < |p| ==> CanSearch(t, p[..j])
    ensures StatFrom(t, p, k).Found? ==> StatFrom(t, p, k).node == t[p]
    ensures StatFrom(t, p, k).Missing? ==> p !in t
    decreases |p| - k
  {
    assert p[..|p|] == p;
    if p[..k] !in t {
      if p in t { AncestorIsDir(t, p, p[..k]); }
    } else if k < |p| && CanSearch(t, p[..k]) {
      StatFromSpec(t, p, k + 1);
    }
  }

  lemma StatSpec(t: Tree, p: Path)
    requires Closed(t)
    ensures Stat(t, p).Found? <==> p in t && Reachable(t, p)
    ensures Stat(t, p).Found? ==> Stat(t, p).node == t[p]
    ensures Stat(t, p).Missing? ==> p !in t
  {
    StatFromSpec(t, p, 0);
    forall q | Above(q, p) ensures q == p[..|q|] {}
    assert forall j :: 0 <= j < |p| ==> Above(p[..j], p);
  }

  /** A directory above the path cannot be searched, or a file stands there. */
  ghost predicate Hidden(t: Tree, p: Path) {
    exists q {:trigger Above(q, p)} :: Above(q, p) && q in t && !CanSearch(t, q)
  }

  lemma {:induction false} HiddenFrom(t: Tree, p: Path, k: nat)
    requires Closed(t) && k <= |p| && forall j :: 0 <= j < k ==> CanSearch(t, p[..j])
    ensures StatFrom(t, p, k).Denied? <==> Hidden(t, p)
    decreases |p| - k
  {
    if p[..k] !in t {
      forall q | Above(q, p) && q in t ensures CanSearch(t, q) {
        assert q == p[..|q|];
        if |q| > k {
          assert Above(p[..k], q);
          AncestorIsDir(t, q, p[..k]);
        } else if |q| < k {
          assert CanSearch(t, p[..|q|]);
        }
      }
    } else if k == |p| {
      forall q | Above(q, p) ensures CanSearch(t, q) { assert q == p[..|q|] && CanSearch(t, p[..|q|]); }
    } else if CanSearch(t, p[..k]) {
      HiddenFrom(t, p, k + 1);
    } else {
      assert Above(p[..k], p);
    }
  }

  lemma StatHidden(t: Tree, p: Path)
    requires Closed(t)
    ensures Stat(t, p).Denied? <==> Hidden(t, p)
    ensures Stat(t, p).Missing? <==> p !in t && !Hidden(t, p)
    ensures Stat(t, p).Found? <==> p in t && !Hidden(t, p)
    ensures Stat(t, p).Found? ==> Stat(t, p).node == t[p]
  {
    HiddenFrom(t, p, 0);
    StatSpec(t, p);
  }

  lemma HiddenChild(t: Tree, p: Path)
    requires p != []
    ensures Hidden(t, p) <==> Hidden(t, Parent(p)) || (Parent(p) in t && !CanSearch(t, Parent(p)))
  {
    AboveParent(p);
    assert Above(Parent(p), p);
    assert forall q :: Above(q, p) <==> Above(q, Parent(p)) || q == Parent(p);
  }

  lemma ReachableChild(t: Tree, p: Path)
    requires p != []
    ensures Reachable(t, p) <==> Reachable(t, Parent(p)) && CanSearch(t, Parent(p))
  {
    AboveParent(p);
    assert Above(Parent(p), p);
    assert forall q :: Above(q, p) <==> Above(q, Parent(p)) || q == Parent(p);
  }

  lemma {:induction false} MakeDirsSpec(t: Tree, p: Path, mode: nat)
    requires Closed(t)
    ensures var r := MakeDirs(t, p, mode);
            && Closed(r.tree)
            && (forall q :: q in t ==> q in r.tree && r.tree[q] == t[q])
            && (forall q :: q in r.tree && q !in t ==> r.tree[q] == Dir(mode) && AtOrAbove(q, p))
            && (p in t || (!r.ok && p != [] && Parent(p) in t) ==> r.tree == t)
            && (r.ok ==> DirAt(r.tree, p) && Reachable(r.tree, p))
            && (r.ok && p !in t ==> p != [] && CanEdit(r.tree, Parent(p)))
            && (r.ok && p !in t && Parent(p) in t ==> r.tree == t[p := Dir(mode)])
    decreases |p|
  {
    StatSpec(t, p);
    if !Stat(t, p).Found? && p != [] {
      MakeDirsSpec(t, Parent(p), mode);
      var up := MakeDirs(t, Parent(p), mode);
      StatSpec(t, Parent(p));
      ReachableChild(MakeDirs(t, p, mode).tree, p);
      if MakeDirs(t, p, mode).ok {
        forall q | Above(q, Parent(p)) ensures CanSearch(up.tree[p := Dir(mode)], q) {}
      }
    }
  }

  lemma SetModeSpec(t: Tree, p: Path, mode: nat)
    requires Closed(t)
    ensures var r := SetMode(t, p, mode);
            && (r.ok <==> p in t && Reachable(t, p))
            && Closed(r.tree)
            && (r.ok ==> r.tree == t[p := if t[p].Dir? then Dir(mode) else File(t[p].content, mode)])
            && (r.ok ==> Reachable(r.tree, p))
            && (!r.ok ==> r.tree == t)
  {
    StatSpec(t, p);
  }

  /** Only the nodes on the way to a path decide how it is seen. */
  lemma {:induction false} StatFromAgrees(t: Tree, t1: Tree, p: Path, k: nat)
    requires k <= |p|
    requires forall q :: AtOrAbove(q, p) ==> (q in t <==> q in t1) && (q in t ==> t[q] == t1[q])
    ensures StatFrom(t, p, k) == StatFrom(t1, p, k)
    decreases |p| - k
  {
    assert AtOrAbove(p[..k], p);
    if k < |p| { StatFromAgrees(t, t1, p, k + 1); }
  }

  lemma SavedSpec(t: Tree, p: Path, content: string, mode: nat)
    requires Closed(t)
    ensures var r := SaveFile(t, p, content, mode);
            && Closed(r.tree)
            && (forall q :: q != p ==> (q in t <==> q in r.tree) && (q in t ==> r.tree[q] == t[q]))
  {
    StatSpec(t, p);
  }

  /** What removing one path can do. */
  lemma RemovedSpec(t: Tree, p: Path)
    requires Closed(t)
    ensures var r := RemoveOne(t, p);
            && Closed(r.tree)
            && (r.tree == t || (p in t && r.tree == t - {p}))
            && (r.ok && p in t ==> r.tree == t - {p})
            && (p !in t ==> r.tree == t)
            && (forall q :: q in t && Above(p, q) ==> p in r.tree)
  {
    StatSpec(t, p);
    var r := RemoveOne(t, p);
    forall q | q in r.tree && q != [] ensures DirAt(r.tree, Parent(q)) { assert Above(Parent(q), q); }
    forall q | q in t && Above(p, q) ensures p in r.tree { AncestorIsDir(t, q, p); }
  }

  /** What removing a tree can do: it works exactly when all of it is removable, and then takes the
      path with everything below it; else some of that stays. */
  lemma RemoveTreeSpec(t: Tree, p: Path)
    requires Closed(t)
    ensures var r := RemoveTree(t, p);
            && Closed(r.tree)
            && (forall q :: q in r.tree ==> q in t && r.tree[q] == t[q])
            && (forall q :: q in t && !AtOrAbove(p, q) ==> q in r.tree)
            && (r.ok && p in t ==> r.tree == RemoveAll(t, p))
            && (p !in t ==> r.tree == t)
  {
    StatSpec(t, p);
    if Stat(t, p).Found? && p != [] && (HasBelow(t, p) ==> CanRead(t, Parent(p))) {
      var r := RemoveTree(t, p).tree;
      forall q | q in r && q != [] ensures DirAt(r, Parent(q)) {
        if Goes(t, p, Parent(q)) { GoesOn(t, p, q); }
      }
      if Removable(t, p) {
        forall q | q in t && AtOrAbove(p, q) ensures Goes(t, p, q) { AllGoes(t, p, q); }
      }
    }
  }

  lemma GoesOn(t: Tree, p: Path, q: Path)
    requires Closed(t) && q in t && q != [] && Goes(t, p, Parent(q))
    ensures Goes(t, p, q)
  {
    assert Above(Parent(q), q);
    forall k | |p| <= k < |q| ensures CanRead(t, q[..k]) && CanSearch(t, q[..k]) {
      if k < |q| - 1 { assert q[..k] == Parent(q)[..k]; } else { assert q[..k] == Parent(q); }
    }
    forall r | r in t && Above(q, r) ensures CanEdit(t, Parent(r)) && CanRead(t, Parent(r)) {
      assert Above(Parent(q), r);
    }
  }

  lemma AllGoes(t: Tree, p: Path, q: Path)
    requires Closed(t) && p != [] && q in t && AtOrAbove(p, q) && Removable(t, p)
    ensures Goes(t, p, q)
  {
    if q != p { assert Above(p, q); }
    forall k | |p| <= k < |q| ensures CanRead(t, q[..k]) && CanSearch(t, q[..k]) {
      var r := q[..k + 1];
      assert Parent(r) == q[..k] && Above(p, r);
      if r != q { assert Above(r, q); AncestorIsDir(t, q, r); }
    }
    forall r | r in t && Above(q, r) ensures CanEdit(t, Parent(r)) && CanRead(t, Parent(r)) {
      assert Above(p, r);
    }
  }

  /** A leaf needs only the directory it sits in. */
  lemma RemoveLeaf(t: Tree, p: Path)
    requires Closed(t) && p in t && p != [] && Reachable(t, p) && !HasBelow(t, p) && CanEdit(t, Parent(p))
    ensures RemoveTree(t, p) == Outcome(true, t - {p})
  {
    StatSpec(t, p);
    RemoveTreeSpec(t, p);
    forall q | q in t && AtOrAbove(p, q) ensures q == p { assert q != p ==> Above(p, q); }
    assert RemoveAll(t, p) == t - {p};
  }

  // ---------------------------------------------------------------- when they work

  lemma ThirdDigit(mode: nat)
    ensures mode % 512 / 64 == mode / 64 % 8
  {
    var high, rest := mode / 512, mode % 512;
    var digit := rest / 64;
    assert mode == 64 * (8 * high + digit) + rest % 64;
    assert mode / 64 == 8 * high + digit;
  }

  lemma DigitBounds(p: nat)
    requires p < 512
    ensures 64 * (p / 64) <= p < 64 * (p / 64) + 64 && p / 64 < 8
  {
  }

  /** The three bits of the owner are those of the third octal digit from the right. */
  lemma OwnerBits(mode: nat, digit: nat)
    requires digit == mode / 64 % 8
    ensures Searchable(mode) <==> digit == 1 || digit == 3 || digit == 5 || digit == 7
    ensures Writable(mode) <==> digit == 2 || digit == 3 || digit == 6 || digit == 7
    ensures Listable(mode) <==> digit >= 4
  {
    PermIsRemainder(mode);
    ThirdDigit(mode);
    DigitBounds(Perm(mode));
  }

  /** A recursive removal works exactly when the path can be looked at and all that is there can be
      opened and changed where it must be. */
  lemma RemoveTreeWorks(t: Tree, p: Path)
    requires Closed(t)
    ensures RemoveTree(t, p).ok <==>
              && !Hidden(t, p)
              && (p in t ==>
                    && p != [] && CanEdit(t, Parent(p))
                    && (HasBelow(t, p) ==> CanRead(t, Parent(p)))
                    && forall q :: q in t && Above(p, q) ==> CanEdit(t, Parent(q)) && CanRead(t, Parent(q)))
  {
    StatHidden(t, p);
  }

  /** Writing a file works exactly when it is there in sight and may be written, or it can be made in the
      directory it goes to; a file that is there keeps its mode. */
  lemma SaveFileWorks(t: Tree, p: Path, content: string, mode: nat)
    requires Closed(t)
    ensures var r := SaveFile(t, p, content, mode);
            && (r.ok <==>
                  && !Hidden(t, p)
                  && if p in t then t[p].File? && Writable(t[p].mode) else CanEdit(t, Parent(p)))
            && r.tree == if r.ok then t[p := File(content, if p in t then t[p].mode else mode)] else t
  {
    StatHidden(t, p);
    if p != [] {
      HiddenChild(t, p);
      StatHidden(t, Parent(p));
    }
  }
}
