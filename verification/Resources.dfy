/** internal/runtime/resources: create exactly the missing part of a path, and take it away
    again when the verification fails. The mode of the new directories is the caller's, so it may
    shut out their own creator. */
module Resources {
  import opened Wrappers
  import opened FileTree
  import opened Access
  import opened Manifests
  import opened Steps
  import opened Text
  import Lexical

  datatype Kind = DirKind | FileKind

  datatype Creation = Creation(path: Path, kind: Kind, mode: nat)

  // ---------------------------------------------------------------- the plan

  /** The path made of the first k segments. */
  function Take(rel: Path, k: nat): Path
    requires k <= |rel|
  {
    rel[..k]
  }

  /** The creations are the missing prefixes of rel, shortest first. */
  ghost predicate IsPlan(t: Tree, rel: Path, kind: Kind, mode: nat, plan: seq<Creation>) {
    && |plan| <= |rel|
    && (forall k :: 0 <= k <= |rel| ==> (Take(rel, k) in t <==> k <= |rel| - |plan|))
    && (forall i :: 0 <= i < |plan| ==> plan[i] == PlannedAt(rel, kind, mode, |rel| - |plan| + 1 + i))
  }

  function DirMode(kind: Kind, mode: nat): nat {
    if kind.DirKind? then mode else MODE_0755
  }

  /** The creation of the first k segments. */
  function PlannedAt(rel: Path, kind: Kind, mode: nat, k: nat): Creation
    requires 0 < k <= |rel|
  {
    if kind.FileKind? && k == |rel| then Creation(rel, FileKind, mode)
    else Creation(Take(rel, k), DirKind, DirMode(kind, mode))
  }

  /** The path cannot be looked at, because a directory above it cannot be searched or is a file, or
      the resource exists as the other kind. */
  ghost predicate InTheWay(t: Tree, rel: Path, kind: Kind) {
    Hidden(t, rel) || (rel in t && (t[rel].Dir? <==> kind.FileKind?))
  }

  /** In a closed tree what exists along a path is an initial part of it. */
  lemma Frontier(t: Tree, rel: Path, m: nat)
    requires Closed(t) && m <= |rel| && Take(rel, m) in t && (m < |rel| ==> Take(rel, m + 1) !in t)
    ensures forall k :: 0 <= k <= |rel| ==> (Take(rel, k) in t <==> k <= m)
    ensures forall k :: 0 <= k < m ==> DirAt(t, Take(rel, k))
  {
    forall k | 0 <= k < m ensures DirAt(t, Take(rel, k)) {
      assert Above(Take(rel, k), Take(rel, m));
      AncestorIsDir(t, Take(rel, m), Take(rel, k));
    }
    forall k | m < k <= |rel| ensures Take(rel, k) !in t {
      if Take(rel, k) in t && k != m + 1 {
        assert Above(Take(rel, m + 1), Take(rel, k));
        AncestorIsDir(t, Take(rel, k), Take(rel, m + 1));
      }
    }
  }

  lemma PrefixHidden(t: Tree, rel: Path, k: nat)
    requires k < |rel|
    ensures Hidden(t, Take(rel, k + 1))
       <==> Hidden(t, Take(rel, k)) || (Take(rel, k) in t && !CanSearch(t, Take(rel, k)))
  {
    assert Parent(Take(rel, k + 1)) == Take(rel, k);
    HiddenChild(t, Take(rel, k + 1));
  }

  lemma {:induction false} HiddenAlong(t: Tree, rel: Path, k: nat, n: nat)
    requires k <= n <= |rel| && Hidden(t, Take(rel, k))
    ensures Hidden(t, Take(rel, n))
    decreases n - k
  {
    if k < n {
      HiddenAlong(t, rel, k, n - 1);
      PrefixHidden(t, rel, n - 1);
    }
  }

  lemma MissingAlong(t: Tree, rel: Path, k: nat)
    requires Closed(t) && k < |rel| && Take(rel, k) !in t
    ensures Take(rel, k + 1) !in t
  {
    assert Parent(Take(rel, k + 1)) == Take(rel, k);
  }

  /** What is known after the first segments: none hidden, `have` of them there, the last a directory. */
  ghost predicate Looked(t: Tree, rel: Path, index: nat, have: nat) {
    && have <= index <= |rel|
    && !Hidden(t, Take(rel, index))
    && DirAt(t, Take(rel, have)) && (have < index ==> Take(rel, have + 1) !in t && Take(rel, index) !in t)
  }

  lemma PlanFrom(t: Tree, rel: Path, kind: Kind, mode: nat, have: nat, plan: seq<Creation>)
    requires Closed(t) && rel != [] && have + |plan| == |rel|
    requires Take(rel, have) in t && (have < |rel| ==> Take(rel, have + 1) !in t)
    requires forall i :: 0 <= i < |plan| ==> plan[i] == PlannedAt(rel, kind, mode, have + 1 + i)
    ensures IsPlan(t, rel, kind, mode, plan)
  {
    Frontier(t, rel, have);
  }

  /** The directory part of planCreations: stops at the first thing that is not a directory, or that
      cannot be looked at. */
  method ScanDirectories(t: Tree, rel: Path, last: nat, kind: Kind, mode: nat)
    returns (blocked: bool, creations: seq<Creation>, ghost have: nat)
    requires Closed(t) && last <= |rel| && (kind.FileKind? ==> last < |rel|)
    ensures blocked ==> Hidden(t, Take(rel, last)) || FileAt(t, Take(rel, last)).Some?
    ensures !blocked ==> Looked(t, rel, last, have) && have + |creations| == last
    ensures !blocked ==> forall i :: 0 <= i < |creations| ==> creations[i] == PlannedAt(rel, kind, mode, have + 1 + i)
  {
    creations, blocked, have := [], false, 0;
    var current: Path := [];
    assert !Hidden(t, Take(rel, 0));
    for index := 0 to last
      invariant current == Take(rel, index) && have + |creations| == index && Looked(t, rel, index, have)
      invariant forall i :: 0 <= i < |creations| ==> creations[i] == PlannedAt(rel, kind, mode, have + 1 + i)
    {
      current := current + [rel[index]];
      assert current == Take(rel, index + 1);
      StatHidden(t, current);
      PrefixHidden(t, rel, index);
      match Stat(t, current) {
        case Denied =>
          HiddenAlong(t, rel, index + 1, last);
          return true, creations, have;
        case Found(node) =>
          if have < index { MissingAlong(t, rel, index); }
          if node.File? {
            if index + 1 < last {
              PrefixHidden(t, rel, index + 1);
              HiddenAlong(t, rel, index + 2, last);
            }
            return true, creations, have;
          }
          have := have + 1;
        case Missing =>
          creations := creations + [Creation(current, DirKind, DirMode(kind, mode))];
      }
    }
  }

  /** planCreations: refuses exactly when something is in the way. */
  method PlanCreations(t: Tree, rel: Path, kind: Kind, mode: nat) returns (plan: Option<seq<Creation>>)
    requires Closed(t) && rel != []
    ensures plan.Some? ==> IsPlan(t, rel, kind, mode, plan.value)
    ensures plan.Some? ==> forall i :: 0 <= i < |plan.value| ==>
              plan.value[i] == if kind.FileKind? then
                  if i == |plan.value| - 1 then Creation(rel, FileKind, mode)
                  else Creation(rel[..|rel| - |plan.value| + 1 + i], DirKind, 493)
                else Creation(rel[..|rel| - |plan.value| + 1 + i], DirKind, mode)
    ensures plan.None? <==> InTheWay(t, rel, kind)
  {
    var last := if kind.FileKind? then |rel| - 1 else |rel|;
    assert Take(rel, |rel|) == rel;
    var blocked, creations, have := ScanDirectories(t, rel, last, kind, mode);
    if kind.FileKind? { PrefixHidden(t, rel, last); }
    if blocked { return None; }
    if kind.FileKind? {
      StatHidden(t, rel);
      match Stat(t, rel) {
        case Denied => return None;
        case Found(node) =>
          if have < last { MissingAlong(t, rel, last); }
          if node.Dir? { return None; }
          PlanFrom(t, rel, kind, mode, |rel|, creations);
          return Some(creations);
        case Missing => creations := creations + [Creation(rel, FileKind, mode)];
      }
    }
    PlanFrom(t, rel, kind, mode, have, creations);
    return Some(creations);
  }

  // ---------------------------------------------------------------- apply

  /** os.Mkdir: what is there already is accepted, whatever it is. */
  function MakeDir(t: Tree, p: Path, mode: nat): Outcome {
    match Stat(t, p)
    case Found(_) => Outcome(true, t)
    case Denied => Outcome(false, t)
    case Missing =>
      if p != [] && Stat(t, Parent(p)).Found? && CanEdit(t, Parent(p)) then Outcome(true, t[p := Dir(Perm(mode))])
      else Outcome(false, t)
  }

  function ApplyOne(t: Tree, c: Creation, content: string): Outcome {
    if c.kind.FileKind? then SaveFile(t, c.path, content, Perm(c.mode)) else MakeDir(t, c.path, c.mode)
  }

  function Making(content: string): (Tree, Creation) -> Outcome {
    (t: Tree, c: Creation) => ApplyOne(t, c, content)
  }

  function Applied(t: Tree, plan: seq<Creation>, content: string): Outcome {
    Forward(t, plan, Making(content))
  }

  /** The creations in order, when something outside the model stops them after `granted`. */
  function AppliedUpTo(t: Tree, plan: seq<Creation>, content: string, granted: nat): Outcome {
    if granted < |plan| then Outcome(false, Applied(t, plan[..granted], content).tree) else Applied(t, plan, content)
  }

  method ApplyCreations(disk: Disk, plan: seq<Creation>, content: string, granted: nat) returns (ok: bool)
    modifies disk
    ensures Outcome(ok, disk.tree) == AppliedUpTo(old(disk.tree), plan, content, granted)
  {
    for i := 0 to |plan|
      invariant i <= granted && Applied(old(disk.tree), plan[..i], content) == Outcome(true, disk.tree)
    {
      if i == granted { return false; }
      ForwardOn(old(disk.tree), plan, i, Making(content));
      var r := ApplyOne(disk.tree, plan[i], content);
      disk.tree := r.tree;
      if !r.ok {
        if granted < |plan| {
          assert plan[..granted][..i + 1] == plan[..i + 1];
          ForwardStops(old(disk.tree), plan[..granted], i + 1, Making(content));
        } else {
          ForwardStops(old(disk.tree), plan, i + 1, Making(content));
        }
        return false;
      }
    }
    assert plan[..|plan|] == plan;
    ok := true;
  }

  // ---------------------------------------------------------------- how far the creations get

  /** p is one of the prefixes of rel longer than `low` and at most `high`. */
  predicate Between(rel: Path, low: nat, high: nat, p: Path) {
    low < |p| <= high && AtOrAbove(p, rel)
  }

  function NodeAt(rel: Path, kind: Kind, mode: nat, content: string, k: nat): Node {
    if kind.FileKind? && k == |rel| then File(content, Perm(mode)) else Dir(Perm(DirMode(kind, mode)))
  }

  /** t1 is t with the prefixes between added as planned and nothing else changed. */
  ghost predicate Grown(t: Tree, rel: Path, kind: Kind, mode: nat, content: string, low: nat, high: nat, t1: Tree) {
    && Closed(t1)
    && (forall p :: p in t1 <==> p in t || Between(rel, low, high, p))
    && (forall p :: p in t ==> t1[p] == t[p])
    && (forall p :: Between(rel, low, high, p) ==> t1[p] == NodeAt(rel, kind, mode, content, |p|))
  }

  /** rel can be planned: its first `low` segments are there and can be looked through. */
  ghost predicate Open(t: Tree, rel: Path, kind: Kind, low: nat) {
    && Closed(t) && rel != [] && low <= |rel| && !InTheWay(t, rel, kind)
    && forall k :: 0 <= k <= |rel| ==> (Take(rel, k) in t <==> k <= low)
  }

  /** The owner can make something in the directories that are made. */
  predicate Enterable(kind: Kind, mode: nat) {
    Searchable(DirMode(kind, mode)) && Writable(DirMode(kind, mode))
  }

  lemma OpenSearch(t: Tree, rel: Path, kind: Kind, low: nat)
    requires Open(t, rel, kind, low) && low < |rel|
    ensures forall k :: 0 <= k <= low ==> CanSearch(t, Take(rel, k))
  {
    forall k | 0 <= k <= low ensures CanSearch(t, Take(rel, k)) { assert Above(Take(rel, k), rel); }
  }

  /** What the new directories hide. */
  lemma HiddenGrown(t: Tree, rel: Path, kind: Kind, mode: nat, content: string, low: nat, high: nat, t1: Tree, k: nat)
    requires Open(t, rel, kind, low) && low <= high <= |rel| && low < |rel| && k <= |rel|
    requires Grown(t, rel, kind, mode, content, low, high, t1)
    ensures Hidden(t1, Take(rel, k)) <==> low < high && low + 1 < k && !Searchable(DirMode(kind, mode))
  {
    OpenSearch(t, rel, kind, low);
    forall q | Above(q, Take(rel, k)) ensures q == Take(rel, |q|) && |q| < k {}
    if low < high && low + 1 < k {
      assert Above(Take(rel, low + 1), Take(rel, k)) && Between(rel, low, high, Take(rel, low + 1));
    }
  }

  /** What is seen of the next path and of the directory it goes into. */
  lemma SeenNext(t: Tree, rel: Path, kind: Kind, mode: nat, content: string, low: nat, k: nat, t1: Tree)
    requires Open(t, rel, kind, low) && low <= k < |rel| && Grown(t, rel, kind, mode, content, low, k, t1)
    ensures var d, p := Take(rel, k), Take(rel, k + 1);
            && Parent(p) == d && p !in t1
            && (CanEdit(t1, d) <==> if k == low then CanEdit(t, d) else Enterable(kind, mode))
            && (CanEdit(t1, d) ==> Stat(t1, d).Found? && Stat(t1, p).Missing?)
            && !Stat(t1, p).Found?
  {
    var d, p := Take(rel, k), Take(rel, k + 1);
    assert Parent(p) == d;
    HiddenGrown(t, rel, kind, mode, content, low, k, t1, k + 1);
    HiddenGrown(t, rel, kind, mode, content, low, k, t1, k);
    StatHidden(t1, p);
    StatHidden(t1, d);
    OpenSearch(t, rel, kind, low);
    if k > low {
      assert Between(rel, low, k, d);
      assert t1[d] == NodeAt(rel, kind, mode, content, k);
    }
  }

  lemma OneMore(t: Tree, rel: Path, kind: Kind, mode: nat, content: string, low: nat, k: nat, t1: Tree, t2: Tree)
    requires low <= k < |rel| && Grown(t, rel, kind, mode, content, low, k, t1) && Take(rel, k + 1) !in t1
    requires t2 == t1[Take(rel, k + 1) := NodeAt(rel, kind, mode, content, k + 1)] && DirAt(t1, Take(rel, k))
    ensures Grown(t, rel, kind, mode, content, low, k + 1, t2)
  {
    var p := Take(rel, k + 1);
    assert Parent(p) == Take(rel, k);
    forall q ensures Between(rel, low, k + 1, q) <==> Between(rel, low, k, q) || q == p {
      if Between(rel, low, k + 1, q) && |q| == k + 1 { assert q == p; }
    }
  }

  /** How the creation of the prefix of length k + 1 ends. */
  ghost predicate OneStep(t: Tree, rel: Path, kind: Kind, mode: nat, content: string, low: nat, k: nat, t1: Tree,
                          r: Outcome)
    requires low <= |rel|
  {
    && (r.ok <==> if k == low then CanEdit(t, Take(rel, low)) else Enterable(kind, mode))
    && (r.ok ==> Grown(t, rel, kind, mode, content, low, k + 1, r.tree))
    && (!r.ok ==> r.tree == t1)
  }

  lemma GrowsByOne(t: Tree, rel: Path, kind: Kind, mode: nat, content: string, low: nat, k: nat, t1: Tree, r: Outcome)
    requires Open(t, rel, kind, low) && low <= k < |rel| && Grown(t, rel, kind, mode, content, low, k, t1)
    requires r == ApplyOne(t1, PlannedAt(rel, kind, mode, k + 1), content)
    ensures OneStep(t, rel, kind, mode, content, low, k, t1, r)
  {
    var p, c := Take(rel, k + 1), PlannedAt(rel, kind, mode, k + 1);
    assert Take(rel, |rel|) == rel && c.path == p;
    SeenNext(t, rel, kind, mode, content, low, k, t1);
    if CanEdit(t1, Take(rel, k)) {
      OneMore(t, rel, kind, mode, content, low, k, t1, t1[p := NodeAt(rel, kind, mode, content, k + 1)]);
    }
  }

  /** The first n creations work: the directory that is there can be edited and, beyond the first, the
      new ones can be. */
  predicate CanReach(t: Tree, rel: Path, kind: Kind, mode: nat, low: nat, n: nat)
    requires low <= |rel|
  {
    n == 0 || (CanEdit(t, Take(rel, low)) && (n == 1 || Enterable(kind, mode)))
  }

  /** How many of the first n creations are there in the end. */
  function Made(t: Tree, rel: Path, kind: Kind, mode: nat, low: nat, n: nat): (m: nat)
    requires low <= |rel|
    ensures m <= n && CanReach(t, rel, kind, mode, low, m)
    ensures m < n ==> m <= 1 && !CanReach(t, rel, kind, mode, low, m + 1)
  {
    if CanReach(t, rel, kind, mode, low, n) then n else if CanEdit(t, Take(rel, low)) then 1 else 0
  }

  /** Creating works as far as that, and what was created so far stays. */
  ghost predicate Reached(t: Tree, rel: Path, kind: Kind, mode: nat, content: string, low: nat, n: nat, r: Outcome)
    requires low <= |rel|
  {
    && (r.ok <==> CanReach(t, rel, kind, mode, low, n))
    && Grown(t, rel, kind, mode, content, low, low + Made(t, rel, kind, mode, low, n), r.tree)
  }

  lemma ReachNext(t: Tree, rel: Path, kind: Kind, mode: nat, content: string, low: nat, k: nat, before: Outcome,
                  r: Outcome)
    requires low <= |rel| && Reached(t, rel, kind, mode, content, low, k, before)
    requires before.ok ==> OneStep(t, rel, kind, mode, content, low, low + k, before.tree, r)
    requires !before.ok ==> r == before
    ensures Reached(t, rel, kind, mode, content, low, k + 1, r)
  {
    assert low + k + 1 == low + (k + 1);
  }

  lemma ApplyReaches(t: Tree, rel: Path, kind: Kind, mode: nat, plan: seq<Creation>, content: string, low: nat, n: nat)
    requires IsPlan(t, rel, kind, mode, plan) && low + |plan| == |rel| && Open(t, rel, kind, low) && n <= |plan|
    ensures Reached(t, rel, kind, mode, content, low, n, Applied(t, plan[..n], content))
  {
    ReachesStepwise(t, rel, kind, mode, plan, content, low);
    ForwardKeeps(t, plan, n, Making(content), Reaching(t, rel, kind, mode, content, low));
  }

  ghost function Reaching(t: Tree, rel: Path, kind: Kind, mode: nat, content: string, low: nat): (nat, Outcome) -> bool
    requires low <= |rel|
  {
    (k: nat, r: Outcome) => Reached(t, rel, kind, mode, content, low, k, r)
  }

  lemma ReachesStepwise(t: Tree, rel: Path, kind: Kind, mode: nat, plan: seq<Creation>, content: string, low: nat)
    requires IsPlan(t, rel, kind, mode, plan) && low + |plan| == |rel| && Open(t, rel, kind, low)
    ensures Kept(t, plan, Making(content), Reaching(t, rel, kind, mode, content, low))
  {
    var inv := Reaching(t, rel, kind, mode, content, low);
    forall k: nat, before: Outcome | k < |plan| && inv(k, before)
      ensures inv(k + 1, if before.ok then Making(content)(before.tree, plan[k]) else before)
    {
      PlanStep(t, rel, kind, mode, plan, content, low, k, before);
    }
  }

  lemma ReachedGrown(t: Tree, rel: Path, kind: Kind, mode: nat, content: string, low: nat, k: nat, before: Outcome)
    requires low <= |rel| && before.ok && Reached(t, rel, kind, mode, content, low, k, before)
    ensures Grown(t, rel, kind, mode, content, low, low + k, before.tree)
  {
  }

  lemma PlanStep(t: Tree, rel: Path, kind: Kind, mode: nat, plan: seq<Creation>, content: string, low: nat, k: nat,
                 before: Outcome)
    requires IsPlan(t, rel, kind, mode, plan) && low + |plan| == |rel| && Open(t, rel, kind, low) && k < |plan|
    requires Reached(t, rel, kind, mode, content, low, k, before)
    ensures Reached(t, rel, kind, mode, content, low, k + 1,
                    if before.ok then Making(content)(before.tree, plan[k]) else before)
  {
    assert plan[k] == PlannedAt(rel, kind, mode, |rel| - |plan| + 1 + k);
    var r := if before.ok then ApplyOne(before.tree, plan[k], content) else before;
    if before.ok {
      ReachedGrown(t, rel, kind, mode, content, low, k, before);
      GrowsByOne(t, rel, kind, mode, content, low, low + k, before.tree, r);
    }
    ReachNext(t, rel, kind, mode, content, low, k, before, r);
  }

  /** Planning again after the creations finds nothing left to create. */
  lemma SecondPlanEmpty(t: Tree, rel: Path, kind: Kind, mode: nat, plan: seq<Creation>, content: string,
                        again: seq<Creation>)
    requires Closed(t) && rel != [] && IsPlan(t, rel, kind, mode, plan) && !InTheWay(t, rel, kind)
    requires Applied(t, plan, content).ok && IsPlan(Applied(t, plan, content).tree, rel, kind, mode, again)
    ensures again == []
  {
    CreationsWork(t, rel, kind, mode, plan, content);
    assert Take(rel, |rel|) == rel && Take(rel, |rel|) in Applied(t, plan, content).tree;
  }

  lemma FirstPlanned(rel: Path, kind: Kind, mode: nat, plan: seq<Creation>)
    requires plan != [] && |plan| <= |rel|
    requires forall i :: 0 <= i < |plan| ==> plan[i] == PlannedAt(rel, kind, mode, |rel| - |plan| + 1 + i)
    ensures var low := |rel| - |plan|; var top := Take(rel, low + 1);
            plan[0].path == top && top != [] && AtOrAbove(top, rel) && Parent(top) == Take(rel, low)
  {
    var low := |rel| - |plan|;
    assert plan[0] == PlannedAt(rel, kind, mode, low + 1) && Take(rel, |rel|) == rel;
    assert Parent(Take(rel, low + 1)) == Take(rel, low);
  }

  lemma PlanOpens(t: Tree, rel: Path, kind: Kind, mode: nat, plan: seq<Creation>)
    requires Closed(t) && rel != [] && IsPlan(t, rel, kind, mode, plan) && !InTheWay(t, rel, kind)
    ensures Open(t, rel, kind, |rel| - |plan|)
  {
  }

  /** Creations that all worked leave the resource there as it was asked for, and in sight. */
  lemma CreationsWork(t: Tree, rel: Path, kind: Kind, mode: nat, plan: seq<Creation>, content: string)
    requires Closed(t) && rel != [] && IsPlan(t, rel, kind, mode, plan) && !InTheWay(t, rel, kind)
    requires Applied(t, plan, content).ok
    ensures var r := Applied(t, plan, content).tree;
            && Closed(r) && rel in r && !InTheWay(r, rel, kind)
            && (plan != [] ==> r[rel] == NodeAt(rel, kind, mode, content, |rel|))
  {
    assert plan[..|plan|] == plan && Take(rel, |rel|) == rel;
    PlanOpens(t, rel, kind, mode, plan);
    ApplyReaches(t, rel, kind, mode, plan, content, |rel| - |plan|, |plan|);
    var r := Applied(t, plan, content).tree;
    if plan == [] {
      assert r == t;
    } else {
      HiddenGrown(t, rel, kind, mode, content, |rel| - |plan|, |rel|, r, |rel|);
      assert Between(rel, |rel| - |plan|, |rel|, rel);
    }
  }

  // ---------------------------------------------------------------- rollback

  /** removeCreated: what cannot be looked at is an error, not a missing path. */
  function RemoveCreated(t: Tree, c: Creation): Outcome {
    match Stat(t, c.path)
    case Missing => Outcome(true, t)
    case Denied => Outcome(false, t)
    case Found(node) =>
      if c.kind.DirKind? then RemoveTree(t, c.path)
      else if node.Dir? || c.path == [] || !CanEdit(t, Parent(c.path)) then Outcome(false, t)
      else Outcome(true, t - {c.path})
  }

  predicate HasTraversal(p: Path) {
    ".." in p
  }

  function RemoveEntry(t: Tree, c: Creation): Outcome {
    if HasTraversal(c.path) then Outcome(false, t) else RemoveCreated(t, c)
  }

  function RolledBack(t: Tree, entries: seq<Creation>): Outcome {
    BackwardUntil(t, entries, RemoveEntry)
  }

  method Rollback(disk: Disk, entries: seq<Creation>) returns (ok: bool, removed: seq<Path>)
    modifies disk
    ensures Outcome(ok, disk.tree) == RolledBack(old(disk.tree), entries)
    ensures ok ==> |removed| == |entries| && forall i :: 0 <= i < |entries| ==>
              removed[i] == entries[|entries| - 1 - i].path
    ensures ok ==> forall i :: 0 <= i < |entries| ==> ".." !in entries[i].path
  {
    removed := [];
    var index := |entries|;
    assert entries[..index] == entries;
    while index > 0
      invariant 0 <= index <= |entries|
      invariant RolledBack(disk.tree, entries[..index]) == RolledBack(old(disk.tree), entries)
      invariant |removed| == |entries| - index
      invariant forall i :: 0 <= i < |removed| ==> removed[i] == entries[|entries| - 1 - i].path
      invariant forall i :: index <= i < |entries| ==> ".." !in entries[i].path
      decreases index
    {
      index := index - 1;
      BackwardUntilFrom(disk.tree, entries, index, RemoveEntry);
      if HasTraversal(entries[index].path) { return false, removed; }
      var r := RemoveCreated(disk.tree, entries[index]);
      disk.tree := r.tree;
      if !r.ok { return false, removed; }
      removed := removed + [entries[index].path];
    }
    ok := true;
  }

  /** Nothing keeps q from being removed when the rollback goes up the path p: q is in a directory that
      can be edited; away from the path that directory can be read as well, and the one above
      it when it is on the path. */
  predicate Loose(t: Tree, p: Path, q: Path) {
    && q != [] && CanEdit(t, Parent(q))
    && (!AtOrAbove(q, p) ==>
          && CanRead(t, Parent(q))
          && (AtOrAbove(Parent(q), p) ==> Parent(q) != [] && CanRead(t, Parent(Parent(q)))))
  }

  /** Going up the path p, nothing at or below `top` is kept from being removed. */
  ghost predicate LooseBelow(t: Tree, p: Path, top: Path) {
    forall q {:trigger Loose(t, p, q)} :: q in t && AtOrAbove(top, q) ==> Loose(t, p, q)
  }

  /** All that is at or below `top` can be removed going up the path p. */
  ghost predicate Clear(t: Tree, p: Path, top: Path) {
    !Hidden(t, p) && LooseBelow(t, p, top)
  }

  /** Removing one created path. */
  lemma RemoveCreatedSpec(t: Tree, c: Creation)
    requires Closed(t) && c.path != []
    ensures var r, p := RemoveCreated(t, c), c.path;
            && (r.ok <==> Clear(t, p, p) && (c.kind.FileKind? ==> !DirAt(t, p)))
            && (r.ok ==> r.tree == RemoveAll(t, p))
            && Closed(r.tree)
  {
    var p := c.path;
    StatHidden(t, p);
    RemoveTreeSpec(t, p);
    if p in t && !Hidden(t, p) {
      FoundLoose(t, p);
      if t[p].File? { FileLeaf(t, p); }
    } else {
      forall q | q in t && AtOrAbove(p, q) ensures p in t { if q != p { assert Above(p, q); AncestorIsDir(t, q, p); } }
    }
    if p !in t { assert RemoveAll(t, p) == t; }
  }

  lemma FileLeaf(t: Tree, p: Path)
    requires Closed(t) && p in t && p != [] && t[p].File?
    ensures !HasBelow(t, p) && RemoveAll(t, p) == t - {p} && Closed(t - {p})
  {
    forall q | q in t ensures !Above(p, q) { if Above(p, q) { AncestorIsDir(t, q, p); } }
    forall q | q in t && AtOrAbove(p, q) ensures q == p { assert q != p ==> Above(p, q); }
  }

  lemma FoundLoose(t: Tree, p: Path)
    requires Closed(t) && p in t && p != []
    ensures Removable(t, p) && (HasBelow(t, p) ==> CanRead(t, Parent(p))) <==> LooseBelow(t, p, p)
  {
    if LooseBelow(t, p, p) {
      assert Loose(t, p, p);
      forall q | q in t && Above(p, q) ensures CanEdit(t, Parent(q)) && CanRead(t, Parent(q)) {
        assert AtOrAbove(p, q) && Loose(t, p, q);
      }
      if HasBelow(t, p) {
        var q :| q in t && Above(p, q);
        var c := q[..|p| + 1];
        assert Parent(c) == p && AtOrAbove(p, c);
        if c != q { assert Above(c, q); AncestorIsDir(t, q, c); }
        assert Loose(t, p, c);
      }
    } else {
      var q :| q in t && AtOrAbove(p, q) && !Loose(t, p, q);
      if q != p {
        assert Above(p, q) && AtOrAbove(p, Parent(q)) && HasBelow(t, p);
        assert !AtOrAbove(q, p);
        if AtOrAbove(Parent(q), p) { assert Parent(q) == p; }
      }
    }
  }

  /** Going up: after the removal at p, the rest is clear along the parent exactly when all was along p. */
  lemma ClearUp(t: Tree, p: Path, top: Path)
    requires Closed(t) && p != [] && top != [] && Above(top, p) && !Hidden(t, p) && LooseBelow(t, p, p)
    ensures Clear(RemoveAll(t, p), Parent(p), top) <==> Clear(t, p, top)
  {
    var r := RemoveAll(t, p);
    HiddenChild(t, p);
    forall q | Above(q, Parent(p)) ensures (q in r <==> q in t) && (q in t ==> r[q] == t[q]) {}
    forall q | q in r && AtOrAbove(top, q) ensures Loose(r, Parent(p), q) <==> Loose(t, p, q) { LooseUp(t, p, top, q); }
    assert LooseBelow(r, Parent(p), top) <==> LooseBelow(t, p, top) by {
      if LooseBelow(t, p, top) {
        forall q | q in r && AtOrAbove(top, q) ensures Loose(r, Parent(p), q) { assert Loose(t, p, q); }
      }
      if LooseBelow(r, Parent(p), top) {
        forall q | q in t && AtOrAbove(top, q) ensures Loose(t, p, q) {
          if q in r { assert Loose(r, Parent(p), q); } else { assert AtOrAbove(p, q); }
        }
      }
    }
  }

  lemma LooseUp(t: Tree, p: Path, top: Path, q: Path)
    requires Closed(t) && p != [] && top != [] && Above(top, p) && q in t && q != [] && !AtOrAbove(p, q)
               && AtOrAbove(top, q)
    ensures Loose(RemoveAll(t, p), Parent(p), q) <==> Loose(t, p, q)
  {
    var d := Parent(q);
    assert AtOrAbove(q, p) <==> AtOrAbove(q, Parent(p)) by { if AtOrAbove(q, p) { assert |q| < |p|; } }
    assert !AtOrAbove(p, d);
    assert AtOrAbove(d, p) <==> AtOrAbove(d, Parent(p)) by { if AtOrAbove(d, p) { assert |d| < |p|; } }
    if d != [] { assert !AtOrAbove(p, Parent(d)); }
  }

  /** The entries of a plan up to the prefix of length low + n. */
  ghost predicate EntriesFrom(rel: Path, kind: Kind, mode: nat, low: nat, entries: seq<Creation>) {
    low + |entries| <= |rel| && forall i :: 0 <= i < |entries| ==> entries[i] == PlannedAt(rel, kind, mode, low + 1 + i)
  }

  lemma RemoveTwice(t: Tree, p: Path, q: Path)
    requires AtOrAbove(q, p)
    ensures RemoveAll(RemoveAll(t, p), q) == RemoveAll(t, q)
  {
    assert forall x :: AtOrAbove(p, x) ==> AtOrAbove(q, x);
  }

  lemma {:induction false} EntriesRoll(t: Tree, rel: Path, kind: Kind, mode: nat, low: nat, n: nat,
                                       entries: seq<Creation>)
    requires Closed(t) && ".." !in rel && n == |entries| && n > 0 && EntriesFrom(rel, kind, mode, low, entries)
    ensures var r, top := RolledBack(t, entries), Take(rel, low + 1);
            && (r.ok <==>
                  Clear(t, Take(rel, low + n), top) && (kind.FileKind? && low + n == |rel| ==> !DirAt(t, rel)))
            && (r.ok ==> r.tree == RemoveAll(t, top))
    decreases n
  {
    var m: nat := n - 1;
    var p, top, last := Take(rel, low + n), Take(rel, low + 1), entries[m];
    assert last == PlannedAt(rel, kind, mode, low + 1 + m) && Take(rel, |rel|) == rel;
    assert last.path == p && !HasTraversal(p);
    RemoveCreatedSpec(t, last);
    var r := RemoveCreated(t, last);
    assert RolledBack(t, entries) == if r.ok then RolledBack(r.tree, entries[..m]) else r;
    if m > 0 {
      assert Parent(p) == Take(rel, low + m) && Above(top, p);
      if r.ok {
        EntriesRoll(r.tree, rel, kind, mode, low, m, entries[..m]);
        ClearUp(t, p, top);
        RemoveTwice(t, p, top);
      } else if Clear(t, p, top) {
        assert LooseBelow(t, p, p);
      }
    }
  }

  /** The rollback works exactly when the whole path can be looked along, all that now is at or below
      the first created path can be removed, and a created file has not become a directory; it then
      removes the first created path with everything below it, whoever put it there. */
  lemma RollbackSpec(t: Tree, rel: Path, kind: Kind, mode: nat, plan: seq<Creation>)
    requires Closed(t) && ".." !in rel && plan != [] && |plan| <= |rel|
    requires forall i :: 0 <= i < |plan| ==> plan[i] == PlannedAt(rel, kind, mode, |rel| - |plan| + 1 + i)
    ensures var r, top := RolledBack(t, plan), plan[0].path;
            && (r.ok <==> Clear(t, rel, top) && (kind.FileKind? ==> !DirAt(t, rel)))
            && (r.ok ==> r.tree == RemoveAll(t, top))
  {
    var low := |rel| - |plan|;
    FirstPlanned(rel, kind, mode, plan);
    assert Take(rel, |rel|) == rel;
    EntriesRoll(t, rel, kind, mode, low, |plan|, plan);
  }

  /** Nothing of the tree before is at or below the first created path. */
  lemma NothingBelow(t: Tree, rel: Path, kind: Kind, low: nat)
    requires Open(t, rel, kind, low) && low < |rel|
    ensures forall q :: q in t ==> !AtOrAbove(Take(rel, low + 1), q)
  {
    var top := Take(rel, low + 1);
    forall q | q in t ensures !AtOrAbove(top, q) {
      if AtOrAbove(top, q) && q != top { assert Above(top, q); AncestorIsDir(t, q, top); }
    }
  }

  lemma GrownGone(t: Tree, rel: Path, kind: Kind, mode: nat, content: string, low: nat, high: nat, t1: Tree)
    requires Open(t, rel, kind, low) && low < |rel| && Grown(t, rel, kind, mode, content, low, high, t1)
    ensures RemoveAll(t1, Take(rel, low + 1)) == t
  {
    NothingBelow(t, rel, kind, low);
    assert forall q :: Between(rel, low, high, q) ==> AtOrAbove(Take(rel, low + 1), q);
  }

  lemma GrownLoose(t: Tree, rel: Path, kind: Kind, mode: nat, content: string, low: nat, j: nat, t1: Tree)
    requires Open(t, rel, kind, low) && low + j <= |rel| && low < |rel| && CanReach(t, rel, kind, mode, low, j)
    requires Grown(t, rel, kind, mode, content, low, low + j, t1)
    ensures LooseBelow(t1, rel, Take(rel, low + 1))
  {
    NothingBelow(t, rel, kind, low);
    forall q | q in t1 && AtOrAbove(Take(rel, low + 1), q) ensures Loose(t1, rel, q) {
      assert Between(rel, low, low + j, q);
      var k: nat := |q| - 1;
      assert Parent(q) == Take(rel, k);
      SearchGrown(t, rel, kind, mode, content, low, j, t1, k);
    }
  }

  lemma SearchGrown(t: Tree, rel: Path, kind: Kind, mode: nat, content: string, low: nat, j: nat, t1: Tree, k: nat)
    requires Open(t, rel, kind, low) && low <= k < low + j <= |rel| && CanReach(t, rel, kind, mode, low, j)
    requires Grown(t, rel, kind, mode, content, low, low + j, t1)
    ensures CanEdit(t1, Take(rel, k))
  {
    if k > low {
      assert Between(rel, low, low + j, Take(rel, k));
      assert t1[Take(rel, k)] == NodeAt(rel, kind, mode, content, k);
    }
  }

  lemma HiddenStops(t: Tree, rel: Path, kind: Kind, mode: nat, plan: seq<Creation>)
    requires Closed(t) && ".." !in rel && 0 < |plan| <= |rel| && Hidden(t, rel)
    requires forall i :: 0 <= i < |plan| ==> plan[i] == PlannedAt(rel, kind, mode, |rel| - |plan| + 1 + i)
    ensures RolledBack(t, plan) == Outcome(false, t)
  {
    var m: nat := |plan| - 1;
    assert plan[m] == PlannedAt(rel, kind, mode, |rel| - |plan| + 1 + m) && Take(rel, |rel|) == rel;
    StatHidden(t, rel);
  }

  /** Rolling back the first j creations, when nobody else wrote there. */
  lemma UntouchedRolls(t: Tree, rel: Path, kind: Kind, mode: nat, plan: seq<Creation>, content: string, low: nat,
                       j: nat, t1: Tree)
    requires IsPlan(t, rel, kind, mode, plan) && low + |plan| == |rel| && plan != [] && Open(t, rel, kind, low)
    requires ".." !in rel && j <= |plan| && CanReach(t, rel, kind, mode, low, j)
    requires Grown(t, rel, kind, mode, content, low, low + j, t1)
    ensures RolledBack(t1, plan) ==
              if j == 0 || |plan| == 1 || Searchable(DirMode(kind, mode)) then Outcome(true, t) else Outcome(false, t1)
  {
    FirstPlanned(rel, kind, mode, plan);
    assert Take(rel, |rel|) == rel;
    HiddenGrown(t, rel, kind, mode, content, low, low + j, t1, |rel|);
    if Hidden(t1, rel) {
      HiddenStops(t1, rel, kind, mode, plan);
    } else {
      RollbackSpec(t1, rel, kind, mode, plan);
      GrownLoose(t, rel, kind, mode, content, low, j, t1);
      GrownGone(t, rel, kind, mode, content, low, low + j, t1);
      if rel in t1 { assert t1[rel] == NodeAt(rel, kind, mode, content, |rel|); }
    }
  }

  // ---------------------------------------------------------------- creations that stop half-way

  /** Nothing was made, or what was made does not hide the rest of the path from its owner. */
  predicate Returns(t: Tree, kind: Kind, mode: nat, plan: seq<Creation>, granted: nat)
    requires plan != [] && plan[0].path != []
  {
    granted == 0 || |plan| == 1 || Searchable(DirMode(kind, mode)) || !CanEdit(t, Parent(plan[0].path))
  }

  /** Creations that stop half-way are undone exactly then: when none was made, one was planned, the
      resource is a file, or the directories have the search bit. Else they all stay. */
  lemma PartialRestores(t: Tree, rel: Path, kind: Kind, mode: nat, plan: seq<Creation>, content: string, granted: nat)
    requires Closed(t) && rel != [] && ".." !in rel && plan != []
    requires IsPlan(t, rel, kind, mode, plan) && !InTheWay(t, rel, kind)
    requires !AppliedUpTo(t, plan, content, granted).ok
    ensures plan[0].path != []
    ensures var part := AppliedUpTo(t, plan, content, granted).tree;
            && RolledBack(part, plan)
                 == (if Returns(t, kind, mode, plan, granted) then Outcome(true, t) else Outcome(false, part))
            && (!Returns(t, kind, mode, plan, granted) ==> plan[0].path in part && plan[0].path !in t)
  {
    var low := |rel| - |plan|;
    FirstPlanned(rel, kind, mode, plan);
    PlanOpens(t, rel, kind, mode, plan);
    assert plan[0].path !in t;
    var j := PartGrown(t, rel, kind, mode, plan, content, granted, low);
    UntouchedRolls(t, rel, kind, mode, plan, content, low, j, AppliedUpTo(t, plan, content, granted).tree);
    if j == 0 {
      assert AppliedUpTo(t, plan, content, granted).tree == t;
    } else {
      assert Between(rel, low, low + j, plan[0].path);
    }
  }

  lemma PartGrown(t: Tree, rel: Path, kind: Kind, mode: nat, plan: seq<Creation>, content: string, granted: nat,
                  low: nat)
    returns (j: nat)
    requires IsPlan(t, rel, kind, mode, plan) && low + |plan| == |rel| && Open(t, rel, kind, low) && plan != []
    requires !AppliedUpTo(t, plan, content, granted).ok
    ensures j <= |plan| && CanReach(t, rel, kind, mode, low, j)
    ensures j == 0 <==> granted == 0 || !CanEdit(t, Take(rel, low))
    ensures Grown(t, rel, kind, mode, content, low, low + j, AppliedUpTo(t, plan, content, granted).tree)
  {
    var n := if granted < |plan| then granted else |plan|;
    assert plan[..|plan|] == plan;
    ApplyReaches(t, rel, kind, mode, plan, content, low, n);
    j := Made(t, rel, kind, mode, low, n);
  }

  // ---------------------------------------------------------------- the manifest

  /** writeRollbackManifest: the name is joined to the backup directory and cleaned, so it can
      lead out of it, and out of the root. It ends with the time of the run. */
  function ManifestPlace(root: Path, name: string, outside: bool): Place {
    var dir := Lexical.Reduce(root + ([BACKUPS] + Split(name, '/')), true);
    if root <= dir then Inside(dir[|root|..], "rollback-manifest.json", MODE_0644) else Outside(outside)
  }

  /** A name without a ".." segment stays in the backup directory. */
  lemma NameInBackups(root: Path, name: string, outside: bool)
    requires Lexical.AllNormal(root) && ".." !in Split(name, '/')
    ensures var place := ManifestPlace(root, name, outside); place.Inside? && Area(place) == [BACKUPS]
  {
    var parts := Split(name, '/');
    Lexical.PlainNormal(root);
    Lexical.ReduceWithoutUps(root + ([BACKUPS] + parts), true);
    Lexical.PlainConcat(root, [BACKUPS] + parts);
    Lexical.PlainConcat([BACKUPS], parts);
    Lexical.PlainNormal([BACKUPS]);
    assert (root + ([BACKUPS] + Lexical.Plain(parts)))[|root|..] == [BACKUPS] + Lexical.Plain(parts);
  }

  lemma SplitLeaving()
    ensures Split("../x", '/') == ["..", "x"]
  {
    SplitJoin(["..", "x"], '/');
    assert Join(["x"], '/') == "x" && ["..", "x"][1..] == ["x"];
    assert Join(["..", "x"], '/') == "../x";
  }

  lemma LeavingReduced(root: Path)
    requires Lexical.AllNormal(root)
    ensures Lexical.Reduce(root + ([BACKUPS] + ["..", "x"]), true) == root + ["x"]
  {
    var in1, in2 := root + [BACKUPS], root + [BACKUPS, ".."];
    assert root + ([BACKUPS] + ["..", "x"]) == in2 + ["x"] && in2 == in1 + [".."];
    Lexical.ReduceNormal(root, [BACKUPS]);
    assert in1[..|in1| - 1] == root;
    Lexical.ReduceSnoc(in1, "..", in2, true);
    Lexical.ReduceSnoc(in2, "x", in2 + ["x"], true);
  }

  /** A name that leaves it: the manifest goes into the application itself. */
  lemma NameLeavesBackups(root: Path, t: Tree, text: string)
    requires Lexical.AllNormal(root) && Closed(t)
    ensures var place := ManifestPlace(root, "../x", true);
            && place == Inside(["x"], "rollback-manifest.json", MODE_0644)
            && (Write(t, place, text).ok ==>
                  (AgreeOutside([BACKUPS], t, Write(t, place, text).tree) <==> FileAt(t, FileOf(place)) == Some(text)))
  {
    SplitLeaving();
    LeavingReduced(root);
    assert (root + ["x"])[|root|..] == ["x"];
    var place := ManifestPlace(root, "../x", true);
    assert Area(place) == ["x"];
    if Write(t, place, text).ok { WhereItShows(t, place, text, [BACKUPS]); }
  }

  lemma AlongElsewhere(place: Place, rel: Path, q: Path)
    requires Elsewhere(place, rel) && AtOrAbove(q, rel)
    ensures Elsewhere(place, q)
  {
    assert q <= rel;
  }

  /** Writing the manifest changes neither the plan nor the verdict for a path elsewhere. */
  lemma PlanCarriesOver(t: Tree, t1: Tree, place: Place, rel: Path, kind: Kind, mode: nat, plan: seq<Creation>)
    requires SameBesides(place, t, t1) && Elsewhere(place, rel) && rel != []
    requires IsPlan(t, rel, kind, mode, plan) && !InTheWay(t, rel, kind)
    ensures IsPlan(t1, rel, kind, mode, plan) && !InTheWay(t1, rel, kind)
    ensures forall q :: AtOrAbove(q, rel) ==> (q in t <==> q in t1) && (q in t ==> t[q] == t1[q])
  {
    forall q | AtOrAbove(q, rel) ensures (q in t <==> q in t1) && (q in t ==> t[q] == t1[q]) {
      AlongElsewhere(place, rel, q);
    }
    forall q | Above(q, rel) && q in t1 ensures CanSearch(t1, q) { assert AtOrAbove(q, rel); }
  }

  /** Whatever the verification wrote at or below the first created path: a rollback that works gives
      back the very tree the creations started from. */
  lemma RollbackRestores(t: Tree, rel: Path, kind: Kind, mode: nat, plan: seq<Creation>, content: string, left: Tree)
    requires Closed(t) && rel != [] && ".." !in rel && plan != []
    requires IsPlan(t, rel, kind, mode, plan) && !InTheWay(t, rel, kind)
    requires Applied(t, plan, content).ok && Closed(left)
    requires AgreeOutside(plan[0].path, Applied(t, plan, content).tree, left)
    ensures RolledBack(left, plan).ok <==> Clear(left, rel, plan[0].path) && (kind.FileKind? ==> !DirAt(left, rel))
    ensures RolledBack(left, plan).ok ==> RolledBack(left, plan).tree == t
    ensures left == Applied(t, plan, content).tree ==> RolledBack(left, plan).ok
  {
    FirstPlanned(rel, kind, mode, plan);
    RollbackSpec(left, rel, kind, mode, plan);
    MadeRolls(t, rel, kind, mode, plan, content);
    MadeGone(t, rel, kind, mode, plan, content);
    assert RemoveAll(left, plan[0].path) == RemoveAll(Applied(t, plan, content).tree, plan[0].path);
  }

  lemma MadeGrown(t: Tree, rel: Path, kind: Kind, mode: nat, plan: seq<Creation>, content: string, low: nat)
    requires IsPlan(t, rel, kind, mode, plan) && low + |plan| == |rel| && Open(t, rel, kind, low)
    requires Applied(t, plan, content).ok
    ensures Grown(t, rel, kind, mode, content, low, low + |plan|, Applied(t, plan, content).tree)
    ensures CanReach(t, rel, kind, mode, low, |plan|)
  {
    assert plan[..|plan|] == plan;
    ApplyReaches(t, rel, kind, mode, plan, content, low, |plan|);
  }

  /** The creations themselves can be taken back. */
  lemma MadeRolls(t: Tree, rel: Path, kind: Kind, mode: nat, plan: seq<Creation>, content: string)
    requires Closed(t) && rel != [] && ".." !in rel && plan != []
    requires IsPlan(t, rel, kind, mode, plan) && !InTheWay(t, rel, kind) && Applied(t, plan, content).ok
    ensures RolledBack(Applied(t, plan, content).tree, plan) == Outcome(true, t)
  {
    PlanOpens(t, rel, kind, mode, plan);
    MadeGrown(t, rel, kind, mode, plan, content, |rel| - |plan|);
    UntouchedRolls(t, rel, kind, mode, plan, content, |rel| - |plan|, |plan|, Applied(t, plan, content).tree);
  }

  lemma MadeGone(t: Tree, rel: Path, kind: Kind, mode: nat, plan: seq<Creation>, content: string)
    requires Closed(t) && rel != [] && plan != []
    requires IsPlan(t, rel, kind, mode, plan) && !InTheWay(t, rel, kind) && Applied(t, plan, content).ok
    ensures RemoveAll(Applied(t, plan, content).tree, plan[0].path) == t
  {
    PlanOpens(t, rel, kind, mode, plan);
    FirstPlanned(rel, kind, mode, plan);
    MadeGrown(t, rel, kind, mode, plan, content, |rel| - |plan|);
    GrownGone(t, rel, kind, mode, content, |rel| - |plan|, |rel|, Applied(t, plan, content).tree);
  }

  // ---------------------------------------------------------------- Ensure

  datatype Result = NotAllowed | Blocked | Present(verified: bool) | NoVerification | ManifestFailed
                  | Created | CreateFailed(rolledBack: bool) | VerifyFailed(rolledBack: bool)

  /** rollbackAfterFailure: the entries are read back from the manifest. */
  function Undone(t: Tree, place: Place, text: string, plan: seq<Creation>): Outcome {
    if Loads(t, place, text) then RolledBack(t, plan) else Outcome(false, t)
  }

  /** How a run that has something to create ends, and the tree it leaves. */
  function CreatedResult(t: Tree, plan: seq<Creation>, place: Place, text: string, content: string, granted: nat,
                         verify: Tree -> (bool, Tree)): (Result, Tree)
  {
    var manifest := Write(t, place, text);
    var made := AppliedUpTo(manifest.tree, plan, content, granted);
    if !manifest.ok then (ManifestFailed, manifest.tree)
    else if !made.ok then
      var undone := Undone(made.tree, place, text, plan);
      (CreateFailed(undone.ok), undone.tree)
    else
      var checked := verify(made.tree);
      if checked.0 then (Created, checked.1)
      else
        var undone := Undone(checked.1, place, text, plan);
        (VerifyFailed(undone.ok), undone.tree)
  }

  /** The manifest is a new file, or an old one its owner can read. */
  predicate Readable(t: Tree, place: Place) {
    place.Inside? && FileOf(place) in t ==> Listable(t[FileOf(place)].mode)
  }

  lemma CreationsElsewhere(t: Tree, rel: Path, kind: Kind, mode: nat, plan: seq<Creation>, content: string, n: nat)
    requires Closed(t) && rel != [] && plan != [] && n <= |plan|
    requires IsPlan(t, rel, kind, mode, plan) && !InTheWay(t, rel, kind)
    ensures plan[0].path != [] && AtOrAbove(plan[0].path, rel)
    ensures AgreeOutside(plan[0].path, t, Applied(t, plan[..n], content).tree)
    ensures Closed(Applied(t, plan[..n], content).tree)
  {
    var low := |rel| - |plan|;
    PlanOpens(t, rel, kind, mode, plan);
    ApplyReaches(t, rel, kind, mode, plan, content, low, n);
    FirstPlanned(rel, kind, mode, plan);
    assert forall q :: Between(rel, low, |rel|, q) ==> AtOrAbove(Take(rel, low + 1), q);
  }

  /** What a run ends with when a creation fails. */
  lemma FailedCreation(t0: Tree, rel: Path, kind: Kind, mode: nat, plan: seq<Creation>, place: Place, text: string,
                       content: string, granted: nat)
    requires Closed(t0) && rel != [] && ".." !in rel && plan != [] && Elsewhere(place, rel)
    requires IsPlan(t0, rel, kind, mode, plan) && !InTheWay(t0, rel, kind) && (place.Inside? ==> Listable(place.mode))
    requires Write(t0, place, text).ok && !AppliedUpTo(Write(t0, place, text).tree, plan, content, granted).ok
    ensures plan[0].path != []
    ensures var t1 := Write(t0, place, text).tree;
            var undone := Undone(AppliedUpTo(t1, plan, content, granted).tree, place, text, plan);
            && (undone.ok <==> Readable(t0, place) && Returns(t0, kind, mode, plan, granted))
            && (undone.ok ==> undone.tree == t1 && SameBesides(place, t0, t1))
            && (!Returns(t0, kind, mode, plan, granted) ==> plan[0].path in undone.tree && plan[0].path !in t0)
  {
    var t1 := Write(t0, place, text).tree;
    ManifestAgrees(t0, place, text);
    ManifestLoads(t0, place, text);
    PlanCarriesOver(t0, t1, place, rel, kind, mode, plan);
    PartialRestores(t1, rel, kind, mode, plan, content, granted);
    var n, top := if granted < |plan| then granted else |plan|, plan[0].path;
    CreationsElsewhere(t1, rel, kind, mode, plan, content, n);
    assert plan[..|plan|] == plan;
    AlongElsewhere(place, rel, top);
    LoadsOn(t1, AppliedUpTo(t1, plan, content, granted).tree, place, text, top);
    assert AtOrAbove(Parent(top), rel) by { assert Parent(top) <= top <= rel; }
  }

  /** The verification leaves this path as it finds it. */
  ghost predicate Spares(verify: Tree -> (bool, Tree), p: Path) {
    forall t {:trigger verify(t)} :: Closed(t) ==>
      Closed(verify(t).1) && (p in t ==> p in verify(t).1 && verify(t).1[p] == t[p])
  }

  /** The verification writes at most at or below this path. */
  ghost predicate WritesBelow(verify: Tree -> (bool, Tree), area: Path) {
    forall t {:trigger verify(t)} :: Closed(t) ==> Closed(verify(t).1) && AgreeOutside(area, t, verify(t).1)
  }

  /** What a run ends with once the creations are there. */
  lemma VerifiedEndings(t0: Tree, rel: Path, kind: Kind, mode: nat, plan: seq<Creation>, place: Place, text: string,
                        content: string, verify: Tree -> (bool, Tree))
    requires Closed(t0) && rel != [] && ".." !in rel && plan != [] && Elsewhere(place, rel)
    requires IsPlan(t0, rel, kind, mode, plan) && !InTheWay(t0, rel, kind) && (place.Inside? ==> Listable(place.mode))
    requires Write(t0, place, text).ok && Applied(Write(t0, place, text).tree, plan, content).ok
    ensures var t1 := Write(t0, place, text).tree;
            var made := Applied(t1, plan, content).tree;
            var left := verify(made).1;
            var undone := Undone(left, place, text, plan);
            && (Spares(verify, rel) ==> rel in left && left[rel] == NodeAt(rel, kind, mode, content, |rel|))
            && (WritesBelow(verify, plan[0].path) ==>
                  && (undone.ok <==>
                        && Readable(t0, place)
                        && Clear(left, rel, plan[0].path)
                        && (kind.FileKind? ==> !DirAt(left, rel)))
                  && (undone.ok ==> undone.tree == t1 && SameBesides(place, t0, t1))
                  && (left == made && Readable(t0, place) ==> undone.ok))
  {
    var t1 := Write(t0, place, text).tree;
    var made := Applied(t1, plan, content).tree;
    ManifestAgrees(t0, place, text);
    ManifestLoads(t0, place, text);
    PlanCarriesOver(t0, t1, place, rel, kind, mode, plan);
    CreationsWork(t1, rel, kind, mode, plan, content);
    if WritesBelow(verify, plan[0].path) {
      var left := verify(made).1;
      assert plan[..|plan|] == plan;
      CreationsElsewhere(t1, rel, kind, mode, plan, content, |plan|);
      RollbackRestores(t1, rel, kind, mode, plan, content, left);
      AlongElsewhere(place, rel, plan[0].path);
      LoadsOn(t1, left, place, text, plan[0].path);
    }
  }

  /** Ensure, after the requested path has been resolved. The operating system grants at most the first
      `granted` creations, and says whether a manifest outside the root was written. The
      verification is a function of the tree that says whether it passed and what it left behind. */
  method Ensure(disk: Disk, root: Path, rel: Path, allowed: seq<Path>, kind: Kind, mode: nat, content: string,
                name: string, outside: bool, encode: seq<Creation> -> string, hasVerification: bool, granted: nat,
                verify: Tree -> (bool, Tree))
    returns (result: Result, plan: seq<Creation>)
    requires Closed(disk.tree) && rel != [] && ".." !in rel
    modifies disk
    ensures result.NotAllowed? <==> rel !in allowed
    ensures result.Blocked? <==> rel in allowed && InTheWay(old(disk.tree), rel, kind)
    ensures result in {NotAllowed, Blocked, NoVerification} ==> disk.tree == old(disk.tree)
    ensures result !in {NotAllowed, Blocked} ==> IsPlan(old(disk.tree), rel, kind, mode, plan)
    ensures result.Present? <==> result !in {NotAllowed, Blocked} && plan == []
    ensures result.Present? ==>
              (result.verified, disk.tree) == if hasVerification then verify(old(disk.tree))
                  else (false, old(disk.tree))
    ensures result.NoVerification? <==> result !in {NotAllowed, Blocked} && plan != [] && !hasVerification
    ensures result in {ManifestFailed, Created} || result.CreateFailed? || result.VerifyFailed? ==>
              && plan != [] && hasVerification && plan[0].path != []
              && (result, disk.tree)
                 == CreatedResult(old(disk.tree), plan, ManifestPlace(root, name, outside), encode(plan), content,
                                  granted, verify)
    ensures rel in allowed && !InTheWay(old(disk.tree), rel, kind) && plan != [] && hasVerification ==>
              var manifest := Write(old(disk.tree), ManifestPlace(root, name, outside), encode(plan));
              var made := Applied(manifest.tree, plan, content);
              && (result.ManifestFailed? <==> !manifest.ok)
              && (result.CreateFailed? <==> manifest.ok && (granted < |plan| || !made.ok))
              && (result.VerifyFailed? <==> manifest.ok && granted >= |plan| && made.ok && !verify(made.tree).0)
              && (result.Created? <==> manifest.ok && granted >= |plan| && made.ok && verify(made.tree).0)
              && (result.Created? ==> disk.tree == verify(made.tree).1)
    ensures result.ManifestFailed? ==> SameBesides(ManifestPlace(root, name, outside), old(disk.tree), disk.tree)
    ensures result.CreateFailed? && Elsewhere(ManifestPlace(root, name, outside), rel) ==>
              var place := ManifestPlace(root, name, outside);
              && (result.rolledBack <==>
                    Readable(old(disk.tree), place) && Returns(old(disk.tree), kind, mode, plan, granted))
              && (result.rolledBack ==> SameBesides(place, old(disk.tree), disk.tree))
              && (!Returns(old(disk.tree), kind, mode, plan, granted) ==>
                    plan[0].path in disk.tree && plan[0].path !in old(disk.tree))
    ensures result.Created? && Elsewhere(ManifestPlace(root, name, outside), rel) && Spares(verify, rel) ==>
              rel in disk.tree && disk.tree[rel] == NodeAt(rel, kind, mode, content, |rel|)
    ensures result.VerifyFailed? && Elsewhere(ManifestPlace(root, name, outside), rel)
              && WritesBelow(verify, plan[0].path) ==>
              var place := ManifestPlace(root, name, outside);
              var made := Applied(Write(old(disk.tree), place, encode(plan)).tree, plan, content).tree;
              var left := verify(made).1;
              && (result.rolledBack <==>
                    && Readable(old(disk.tree), place)
                    && Clear(left, rel, plan[0].path)
                    && (kind.FileKind? ==> !DirAt(left, rel)))
              && (result.rolledBack ==> SameBesides(place, old(disk.tree), disk.tree))
              && (left == made && Readable(old(disk.tree), place) ==> result.rolledBack)
  {
    ghost var t0 := disk.tree;
    plan := [];
    if rel !in allowed { return NotAllowed, plan; }
    var planned := PlanCreations(disk.tree, rel, kind, mode);
    if planned.None? { return Blocked, plan; }
    plan := planned.value;
    if plan == [] {
      var checked := if hasVerification then verify(disk.tree) else (false, disk.tree);
      disk.tree := checked.1;
      return Present(checked.0), plan;
    }
    if !hasVerification { return NoVerification, plan; }
    CreationsElsewhere(t0, rel, kind, mode, plan, content, 0);
    var place, text := ManifestPlace(root, name, outside), encode(plan);
    ManifestAgrees(t0, place, text);
    var manifest := Write(disk.tree, place, text);
    disk.tree := manifest.tree;
    if !manifest.ok { return ManifestFailed, plan; }
    var ok := ApplyCreations(disk, plan, content, granted);
    if !ok {
      if Elsewhere(place, rel) { FailedCreation(t0, rel, kind, mode, plan, place, text, content, granted); }
      var undone := RollBackFrom(disk, place, text, plan);
      return CreateFailed(undone), plan;
    }
    if Elsewhere(place, rel) { VerifiedEndings(t0, rel, kind, mode, plan, place, text, content, verify); }
    var checked := verify(disk.tree);
    disk.tree := checked.1;
    if checked.0 { return Created, plan; }
    var undone := RollBackFrom(disk, place, text, plan);
    return VerifyFailed(undone), plan;
  }

  method RollBackFrom(disk: Disk, place: Place, text: string, plan: seq<Creation>) returns (ok: bool)
    modifies disk
    ensures Outcome(ok, disk.tree) == Undone(old(disk.tree), place, text, plan)
  {
    if !Loads(disk.tree, place, text) { return false; }
    var done, _ := Rollback(disk, plan);
    ok := done;
  }

  // ---------------------------------------------------------------- a directory that hides its own contents

  /** Two directories of mode 0600 on a healthy tree: the first is made, the second is refused, and the
      rollback cannot look for the second, so the first stays. */
  lemma HiddenDirectoryStays()
    ensures var t: Tree, rel, plan := map[[] := Dir(MODE_0755)], ["a", "b"],
              [Creation(["a"], DirKind, MODE_0600), Creation(["a", "b"], DirKind, MODE_0600)];
            && Closed(t) && IsPlan(t, rel, DirKind, MODE_0600, plan) && !InTheWay(t, rel, DirKind)
            && var part := AppliedUpTo(t, plan, "", 2);
               !part.ok && RolledBack(part.tree, plan) == Outcome(false, part.tree) && ["a"] in part.tree
  {
    var t: Tree, rel, plan := map[[] := Dir(MODE_0755)], ["a", "b"],
      [Creation(["a"], DirKind, MODE_0600), Creation(["a", "b"], DirKind, MODE_0600)];
    assert Take(rel, 0) == [] && Take(rel, 1) == ["a"] && Take(rel, 2) == rel;
    forall q | Above(q, rel) && q in t ensures CanSearch(t, q) {}
    assert plan[..2] == plan;
    ApplyReaches(t, rel, DirKind, MODE_0600, plan, "", 0, 2);
    PartialRestores(t, rel, DirKind, MODE_0600, plan, "", 2);
    assert Parent(["a"]) == [];
  }
}
