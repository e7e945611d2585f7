/** internal/runtime/permissions: plan mode repairs for a framework's writable directories from
    one look at the tree, apply them, look again, and roll back from a manifest. A path that
    cannot be seen counts as missing, also when it is only hidden behind a directory without
    its search bit. */
module Permissions {
  import opened FileTree
  import opened Access
  import opened Manifests
  import opened Steps

  const STATE_DIR := ".ai-logfixer"
  const MODE_0775: nat := 509

  type Mode = m: nat | m < 512

  datatype Expected = Expected(path: Path, dir: bool, mode: Mode, writable: bool)

  type Policy = seq<Expected>

  datatype Finding = Missing(path: Path) | ModeDrift(path: Path) | NotWritable(path: Path)

  datatype Operation = MkdirChmod(path: Path, mode: Mode) | JustChmod(path: Path, mode: Mode)

  /** A line for the root itself, or a directory line whose path is something else: the whole run
      is blocked. */
  predicate BlockedBy(t: Tree, e: Expected) {
    e.path == [] || (Stat(t, e.path).Found? && e.dir && Stat(t, e.path).node.File?)
  }

  function FindingFor(t: Tree, e: Expected, canWrite: Path -> bool): seq<Finding> {
    match Stat(t, e.path)
    case Found(node) =>
      if Perm(node.mode) != e.mode then [ModeDrift(e.path)]
      else if e.writable && !(node.Dir? && canWrite(e.path)) then [NotWritable(e.path)]
      else []
    case _ => [Finding.Missing(e.path)]
  }

  function OperationFor(t: Tree, e: Expected): seq<Operation> {
    match Stat(t, e.path)
    case Found(node) => if Perm(node.mode) != e.mode then [JustChmod(e.path, e.mode)] else []
    case _ => [MkdirChmod(e.path, e.mode)]
  }

  /** The findings of the first n lines. */
  function Findings(t: Tree, policy: Policy, n: nat, canWrite: Path -> bool): seq<Finding>
    requires n <= |policy|
  {
    if n == 0 then [] else Findings(t, policy, n - 1, canWrite) + FindingFor(t, policy[n - 1], canWrite)
  }

  /** The operations planned for the first n lines, all from the one tree t. */
  function Operations(t: Tree, policy: Policy, n: nat): seq<Operation>
    requires n <= |policy|
  {
    if n == 0 then [] else Operations(t, policy, n - 1) + OperationFor(t, policy[n - 1])
  }

  predicate AnyBlocked(t: Tree, policy: Policy) {
    exists i :: 0 <= i < |policy| && BlockedBy(t, policy[i])
  }

  /** The line is met: the path is there in sight, of its kind, with its mode, and where it is to be
      writable a directory that the probe can write in. */
  ghost predicate Met(t: Tree, e: Expected, canWrite: Path -> bool) {
    && e.path != [] && e.path in t && Reachable(t, e.path)
    && (e.dir ==> t[e.path].Dir?)
    && Perm(t[e.path].mode) == e.mode
    && (e.writable ==> t[e.path].Dir? && canWrite(e.path))
  }

  lemma FindingsOn(t: Tree, policy: Policy, n: nat, canWrite: Path -> bool)
    requires n < |policy|
    ensures var k := n + 1;
            Findings(t, policy, k, canWrite) == [] <==>
              Findings(t, policy, n, canWrite) == [] && FindingFor(t, policy[n], canWrite) == []
  {
  }

  lemma {:induction false} FindingStays(t: Tree, policy: Policy, n: nat, canWrite: Path -> bool, i: nat)
    requires i < n <= |policy| && FindingFor(t, policy[i], canWrite) != []
    ensures Findings(t, policy, n, canWrite) != []
    decreases n - i
  {
    if n == i + 1 {
      FindingsOn(t, policy, i, canWrite);
    } else {
      var k: nat := n - 1;
      FindingStays(t, policy, k, canWrite, i);
      FindingsOn(t, policy, k, canWrite);
    }
  }

  lemma {:induction false} SomeFinding(t: Tree, policy: Policy, n: nat, canWrite: Path -> bool) returns (i: nat)
    requires n <= |policy| && Findings(t, policy, n, canWrite) != []
    ensures i < n && FindingFor(t, policy[i], canWrite) != []
  {
    var k: nat := n - 1;
    FindingsOn(t, policy, k, canWrite);
    i := k;
    if FindingFor(t, policy[k], canWrite) == [] { i := SomeFinding(t, policy, k, canWrite); }
  }

  /** Nothing blocks and nothing is found exactly when every line is met. */
  lemma NothingFound(t: Tree, policy: Policy, n: nat, canWrite: Path -> bool)
    requires Closed(t) && n <= |policy|
    ensures Findings(t, policy, n, canWrite) == [] && (forall i :: 0 <= i < n ==> !BlockedBy(t, policy[i]))
       <==> forall i :: 0 <= i < n ==> Met(t, policy[i], canWrite)
  {
    forall i | 0 <= i < n
      ensures FindingFor(t, policy[i], canWrite) == [] && !BlockedBy(t, policy[i]) <==> Met(t, policy[i], canWrite)
    {
      OneFound(t, policy[i], canWrite);
    }
    if Findings(t, policy, n, canWrite) == [] {
      forall i | 0 <= i < n ensures FindingFor(t, policy[i], canWrite) == [] {
        if FindingFor(t, policy[i], canWrite) != [] { FindingStays(t, policy, n, canWrite, i); }
      }
    } else {
      var i := SomeFinding(t, policy, n, canWrite);
      assert !Met(t, policy[i], canWrite);
    }
  }

  lemma OneFound(t: Tree, e: Expected, canWrite: Path -> bool)
    requires Closed(t)
    ensures FindingFor(t, e, canWrite) == [] && !BlockedBy(t, e) <==> Met(t, e, canWrite)
  {
    StatSpec(t, e.path);
  }

  /** inspectPolicy; canWrite stands for the write probe, which leaves nothing behind. */
  method InspectPolicy(t: Tree, policy: Policy, canWrite: Path -> bool)
    returns (findings: seq<Finding>, operations: seq<Operation>, blocked: bool)
    ensures blocked <==> AnyBlocked(t, policy)
    ensures !blocked ==> findings == Findings(t, policy, |policy|, canWrite)
    ensures !blocked ==> operations == Operations(t, policy, |policy|)
  {
    findings, operations, blocked := [], [], false;
    for i := 0 to |policy|
      invariant forall k :: 0 <= k < i ==> !BlockedBy(t, policy[k])
      invariant findings == Findings(t, policy, i, canWrite) && operations == Operations(t, policy, i)
    {
      var e := policy[i];
      if e.path == [] { return findings, operations, true; }
      var state := Stat(t, e.path);
      if !state.Found? {
        findings, operations := findings + [Finding.Missing(e.path)], operations + [MkdirChmod(e.path, e.mode)];
      } else if e.dir && state.node.File? {
        return findings, operations, true;
      } else if Perm(state.node.mode) != e.mode {
        findings, operations := findings + [ModeDrift(e.path)], operations + [JustChmod(e.path, e.mode)];
      } else if e.writable && !(state.node.Dir? && canWrite(e.path)) {
        findings := findings + [NotWritable(e.path)];
      }
    }
  }

  // ---------------------------------------------------------------- apply

  function Effective(mode: Mode): Mode {
    if mode == 0 then MODE_0775 else mode
  }

  function ApplyOne(t: Tree, op: Operation): Outcome {
    match op
    case MkdirChmod(p, mode) =>
      var made := MakeDirs(t, p, Effective(mode));
      if made.ok then SetMode(made.tree, p, Effective(mode)) else made
    case JustChmod(p, mode) => SetMode(t, p, Effective(mode))
  }

  /** The operations in order, stopping at the first that fails. */
  function Applied(t: Tree, operations: seq<Operation>): Outcome {
    Forward(t, operations, ApplyOne)
  }

  method ApplyOperations(disk: Disk, operations: seq<Operation>) returns (ok: bool)
    modifies disk
    ensures Outcome(ok, disk.tree) == Applied(old(disk.tree), operations)
  {
    for i := 0 to |operations|
      invariant Forward(old(disk.tree), operations[..i], ApplyOne) == Outcome(true, disk.tree)
    {
      assert operations[..i + 1][..i] == operations[..i];
      var r := ApplyOne(disk.tree, operations[i]);
      disk.tree := r.tree;
      if !r.ok {
        ForwardStops(old(disk.tree), operations, i + 1, ApplyOne);
        return false;
      }
    }
    assert operations[..|operations|] == operations;
    ok := true;
  }

  /** What a line of the policy does when its turn comes. */
  function LineDone(t0: Tree, e: Expected, t: Tree): Outcome {
    if OperationFor(t0, e) == [] then Outcome(true, t) else ApplyOne(t, OperationFor(t0, e)[0])
  }

  function Doing(t0: Tree, policy: Policy): (nat, Tree) -> Outcome {
    (k: nat, t: Tree) => if k < |policy| then LineDone(t0, policy[k], t) else Outcome(true, t)
  }

  lemma PieceDone(t0: Tree, e: Expected, t: Tree)
    ensures Forward(t, OperationFor(t0, e), ApplyOne) == LineDone(t0, e, t)
  {
    assert OperationFor(t0, e) != [] ==> OperationFor(t0, e)[..0] == [];
  }

  function Plan(t: Tree, policy: Policy): seq<seq<Operation>> {
    seq(|policy|, k requires 0 <= k < |policy| => OperationFor(t, policy[k]))
  }

  function PlanUpTo(t: Tree, policy: Policy): seq<seq<Operation>> {
    seq(|policy| + 1, k requires 0 <= k <= |policy| => Operations(t, policy, k))
  }

  /** Applying the planned operations is going through the policy line by line. */
  lemma AppliedByLine(t: Tree, policy: Policy)
    ensures Applied(t, Operations(t, policy, |policy|)) == Lines(|policy|, t, Doing(t, policy))
  {
    var n := |policy|;
    var upTo, pieces, line := PlanUpTo(t, policy), Plan(t, policy), Doing(t, policy);
    forall k: nat, u: Tree | k < n ensures line(k, u) == Forward(u, pieces[k], ApplyOne) { PieceDone(t, policy[k], u); }
    ForwardByLine(t, upTo, pieces, n, ApplyOne, line);
  }

  // ---------------------------------------------------------------- rollback

  datatype Entry = Entry(path: Path, existed: bool, mode: Mode)

  function EntryFor(t: Tree, e: Expected): seq<Entry> {
    if OperationFor(t, e) == [] then []
    else
      match Stat(t, e.path)
      case Found(node) => [Entry(e.path, true, Perm(node.mode))]
      case _ => [Entry(e.path, false, 0)]
  }

  /** The entries writeRollbackManifest records for the first n lines: the affected states, in
      policy order. */
  function Entries(t: Tree, policy: Policy, n: nat): seq<Entry>
    requires n <= |policy|
  {
    if n == 0 then [] else Entries(t, policy, n - 1) + EntryFor(t, policy[n - 1])
  }

  function UndoOne(t: Tree, e: Entry): Outcome {
    if e.existed then SetMode(t, e.path, e.mode) else RemoveOne(t, e.path)
  }

  /** rollbackPermissions: last entry first, going on after an error. */
  function RolledBack(t: Tree, entries: seq<Entry>): Outcome {
    Backward(t, entries, UndoOne)
  }

  method RollbackPermissions(disk: Disk, entries: seq<Entry>) returns (ok: bool)
    modifies disk
    ensures Outcome(ok, disk.tree) == RolledBack(old(disk.tree), entries)
  {
    ok := true;
    var index := |entries|;
    assert entries[..index] == entries;
    while index > 0
      invariant 0 <= index <= |entries|
      invariant var rest := Backward(disk.tree, entries[..index], UndoOne);
                RolledBack(old(disk.tree), entries) == Outcome(ok && rest.ok, rest.tree)
      decreases index
    {
      index := index - 1;
      assert entries[..index + 1][..index] == entries[..index];
      var r := UndoOne(disk.tree, entries[index]);
      disk.tree := r.tree;
      ok := ok && r.ok;
    }
  }

  /** What undoing a line of the policy does when its turn comes. */
  function LineBack(t0: Tree, e: Expected, t: Tree): Outcome {
    if EntryFor(t0, e) == [] then Outcome(true, t) else UndoOne(t, EntryFor(t0, e)[0])
  }

  function Undoing(t0: Tree, policy: Policy): (nat, Tree) -> Outcome {
    (k: nat, t: Tree) => if k < |policy| then LineBack(t0, policy[k], t) else Outcome(true, t)
  }

  lemma PieceBack(t0: Tree, e: Expected, t: Tree)
    ensures Backward(t, EntryFor(t0, e), UndoOne) == LineBack(t0, e, t)
  {
    assert EntryFor(t0, e) != [] ==> EntryFor(t0, e)[..0] == [];
  }

  /** Rolling back from the manifest is going back through the policy line by line. */
  lemma RolledBackByLine(t0: Tree, policy: Policy, t: Tree)
    ensures RolledBack(t, Entries(t0, policy, |policy|)) == LinesBack(|policy|, t, Undoing(t0, policy))
  {
    var n := |policy|;
    var upTo := seq(n + 1, k requires 0 <= k <= n => Entries(t0, policy, k));
    var pieces := seq(n, k requires 0 <= k < n => EntryFor(t0, policy[k]));
    var line := Undoing(t0, policy);
    forall k: nat, u: Tree | k < n ensures line(k, u) == Backward(u, pieces[k], UndoOne) {
      PieceBack(t0, policy[k], u);
    }
    BackwardByLine(t, upTo, pieces, n, UndoOne, line);
  }

  // ---------------------------------------------------------------- the course of an apply

  ghost predicate Distinct(policy: Policy) {
    forall i, j :: 0 <= i < j < |policy| ==> policy[i].path != policy[j].path
  }

  ghost predicate Listed(policy: Policy, n: nat, q: Path)
    requires n <= |policy|
  {
    exists i :: 0 <= i < n && policy[i].path == q
  }

  lemma ListedMore(policy: Policy, n: nat)
    requires n < |policy|
    ensures forall q :: Listed(policy, n + 1, q) <==> Listed(policy, n, q) || q == policy[n].path
  {
    forall q ensures Listed(policy, n + 1, q) <==> Listed(policy, n, q) || q == policy[n].path {
      if Listed(policy, n, q) { var i :| 0 <= i < n && policy[i].path == q; assert i < n + 1; }
    }
  }

  /** What one successful operation does to the tree. */
  ghost predicate Did(t: Tree, op: Operation, r: Tree) {
    && Closed(r)
    && op.path in r && r[op.path].mode == Effective(op.mode) && Reachable(r, op.path)
    && (op.JustChmod? ==> op.path in t)
    && (op.MkdirChmod? ==> r[op.path].Dir?)
    && (op.path !in t && op.path != [] ==> CanEdit(r, Parent(op.path)))
    && (forall q :: q in t ==> q in r && (r[q].Dir? <==> t[q].Dir?) && (q != op.path ==> r[q] == t[q]))
    && (forall q :: q in t && t[q].File? ==> r[q].content == t[q].content)
    && (forall q :: q in r && q !in t ==> r[q].Dir? && AtOrAbove(q, op.path))
  }

  lemma ApplyOneSpec(t: Tree, op: Operation)
    requires Closed(t)
    ensures ApplyOne(t, op).ok ==> Did(t, op, ApplyOne(t, op).tree)
    ensures !ApplyOne(t, op).ok && (op.path in t || (op.path != [] && Parent(op.path) in t)) ==>
              ApplyOne(t, op).tree == t
  {
    MakeDirsSpec(t, op.path, Effective(op.mode));
    SetModeSpec(t, op.path, Effective(op.mode));
    SetModeSpec(MakeDirs(t, op.path, Effective(op.mode)).tree, op.path, Effective(op.mode));
  }

  /** What the operations of the first n lines leave. */
  ghost predicate Settled(t0: Tree, policy: Policy, n: nat, t: Tree)
    requires n <= |policy|
  {
    && Closed(t)
    && (forall q :: q in t0 ==> q in t && (t[q].Dir? <==> t0[q].Dir?))
    && (forall q :: q in t && q !in t0 ==> t[q].Dir?)
    && (forall q :: q in t0 && t[q] != t0[q] ==> Listed(policy, n, q))
    && (forall i :: 0 <= i < n && OperationFor(t0, policy[i]) != [] ==>
          policy[i].path in t && t[policy[i].path].mode == Effective(policy[i].mode))
  }

  lemma SettledStep(t0: Tree, policy: Policy, n: nat, t: Tree, r: Tree)
    requires Distinct(policy) && n < |policy| && Settled(t0, policy, n, t)
    requires OperationFor(t0, policy[n]) != [] && Did(t, OperationFor(t0, policy[n])[0], r)
    ensures Settled(t0, policy, n + 1, r)
  {
    var p := policy[n].path;
    ListedMore(policy, n);
    forall q | q in t0 && r[q] != t0[q] ensures Listed(policy, n + 1, q) {
      if q != p { assert Listed(policy, n, q); }
    }
  }

  ghost predicate LineDid(t0: Tree, e: Expected, t: Tree, r: Tree) {
    if OperationFor(t0, e) == [] then r == t else Did(t, OperationFor(t0, e)[0], r)
  }

  ghost predicate StepOfCourse(t0: Tree, policy: Policy, trees: seq<Tree>, i: nat)
    requires i < |policy| && i + 1 < |trees|
  {
    LineDid(t0, policy[i], trees[i], trees[i + 1])
  }

  /** The trees between the lines of an apply. */
  ghost predicate Course(t0: Tree, policy: Policy, trees: seq<Tree>) {
    && 1 <= |trees| <= |policy| + 1
    && trees[0] == t0
    && forall i :: 0 <= i < |trees| - 1 ==> StepOfCourse(t0, policy, trees, i)
  }

  lemma LineDoneSpec(t0: Tree, e: Expected, t: Tree)
    requires Closed(t) && LineDone(t0, e, t).ok
    ensures LineDid(t0, e, t, LineDone(t0, e, t).tree) && Closed(LineDone(t0, e, t).tree)
  {
    if OperationFor(t0, e) != [] { ApplyOneSpec(t, OperationFor(t0, e)[0]); }
  }

  /** A course is what the lines make of a tree. */
  lemma {:induction false} CourseOf(t0: Tree, policy: Policy, trees: seq<Tree>, n: nat)
    requires Closed(t0) && n < |trees| <= |policy| + 1 && trees[0] == t0
    requires forall i: nat :: i < |trees| - 1 ==> Doing(t0, policy)(i, trees[i]) == Outcome(true, trees[i + 1])
    ensures Closed(trees[n]) && forall i :: 0 <= i < n ==> StepOfCourse(t0, policy, trees, i)
  {
    if n > 0 {
      var k: nat := n - 1;
      CourseOf(t0, policy, trees, k);
      assert Doing(t0, policy)(k, trees[k]) == Outcome(true, trees[k + 1]);
      LineDoneSpec(t0, policy[k], trees[k]);
      assert StepOfCourse(t0, policy, trees, k);
    }
  }

  lemma ApplyCourse(t0: Tree, policy: Policy) returns (trees: seq<Tree>)
    requires Closed(t0) && Lines(|policy|, t0, Doing(t0, policy)).ok
    ensures Course(t0, policy, trees) && |trees| == |policy| + 1
    ensures trees[|policy|] == Lines(|policy|, t0, Doing(t0, policy)).tree && Closed(trees[|policy|])
  {
    var k: nat;
    k, trees := LinesCourse(|policy|, t0, Doing(t0, policy));
    CourseOf(t0, policy, trees, |policy|);
  }

  lemma SettledNext(t0: Tree, policy: Policy, k: nat, t: Tree, r: Tree)
    requires Distinct(policy) && k < |policy| && Settled(t0, policy, k, t) && LineDid(t0, policy[k], t, r)
    ensures Settled(t0, policy, k + 1, r)
  {
    ListedMore(policy, k);
    if OperationFor(t0, policy[k]) != [] { SettledStep(t0, policy, k, t, r); }
  }

  lemma {:induction false} CourseSettles(t0: Tree, policy: Policy, trees: seq<Tree>, n: nat)
    requires Closed(t0) && Distinct(policy) && Course(t0, policy, trees) && n < |trees|
    ensures Settled(t0, policy, n, trees[n])
  {
    if n > 0 {
      var k: nat := n - 1;
      CourseSettles(t0, policy, trees, k);
      assert StepOfCourse(t0, policy, trees, k);
      SettledNext(t0, policy, k, trees[k], trees[k + 1]);
    }
  }

  /** A path keeps what it is over the lines of other paths. */
  lemma {:induction false} Untouched(t0: Tree, policy: Policy, trees: seq<Tree>, from: nat, k: nat, q: Path)
    requires Course(t0, policy, trees) && from <= k < |trees| && q in trees[from]
    requires forall i :: from <= i < k ==> policy[i].path != q
    ensures q in trees[k] && trees[k][q] == trees[from][q]
    decreases k
  {
    if from < k {
      Untouched(t0, policy, trees, from, k - 1, q);
      assert StepOfCourse(t0, policy, trees, k - 1);
    }
  }

  // ---------------------------------------------------------------- planning reaches a fixpoint

  /** The mode a line's path has after the apply, as far as its permission bits go. */
  function FinalMode(t: Tree, e: Expected): Mode {
    if OperationFor(t, e) == [] then e.mode else Effective(e.mode)
  }

  /** No line of the policy shuts off the path of another. */
  ghost predicate StillSearchable(t: Tree, policy: Policy) {
    forall i, j :: 0 <= i < |policy| && 0 <= j < |policy| && Above(policy[j].path, policy[i].path)
                   ==> Searchable(FinalMode(t, policy[j]))
  }

  /** A mode of 0000 is applied as 0775. */
  ghost predicate ZeroModesSettled(t: Tree, policy: Policy) {
    forall i :: 0 <= i < |policy| && policy[i].mode == 0 ==> OperationFor(t, policy[i]) == []
  }

  /** When a line has been applied its path is there and can be reached. */
  lemma LineReached(t: Tree, policy: Policy, trees: seq<Tree>, i: nat)
    requires Closed(t) && Course(t, policy, trees) && i + 1 < |trees|
    ensures OperationFor(t, policy[i]) != [] ==>
              policy[i].path in trees[i + 1] && Reachable(trees[i + 1], policy[i].path)
    ensures OperationFor(t, policy[i]) == [] ==>
              policy[i].path in t && Reachable(t, policy[i].path) && Perm(t[policy[i].path].mode) == policy[i].mode
  {
    assert StepOfCourse(t, policy, trees, i);
    StatSpec(t, policy[i].path);
  }

  /** The mode every line's path ends with. */
  lemma FinalModes(t: Tree, policy: Policy, trees: seq<Tree>, i: nat)
    requires Closed(t) && Distinct(policy) && Course(t, policy, trees) && |trees| == |policy| + 1 && i < |policy|
    ensures policy[i].path in trees[|policy|] && Perm(trees[|policy|][policy[i].path].mode) == FinalMode(t, policy[i])
    ensures OperationFor(t, policy[i]) == [] ==>
              policy[i].path in t && trees[|policy|][policy[i].path] == t[policy[i].path]
  {
    CourseSettles(t, policy, trees, |policy|);
    if OperationFor(t, policy[i]) == [] {
      LineReached(t, policy, trees, i);
      IdleUntouched(t, policy, trees, i);
    }
  }

  lemma IdleUntouched(t: Tree, policy: Policy, trees: seq<Tree>, i: nat)
    requires Distinct(policy) && Course(t, policy, trees) && |trees| == |policy| + 1 && i < |policy|
    requires OperationFor(t, policy[i]) == [] && policy[i].path in t
    ensures policy[i].path in trees[|policy|] && trees[|policy|][policy[i].path] == t[policy[i].path]
  {
    Untouched(t, policy, trees, 0, i, policy[i].path);
    assert StepOfCourse(t, policy, trees, i);
    Untouched(t, policy, trees, i + 1, |policy|, policy[i].path);
  }

  /** A directory above a line's path that no line names could be searched when the line was
      applied, and still can. */
  lemma UnlistedSearchable(t: Tree, policy: Policy, trees: seq<Tree>, i: nat, q: Path)
    requires Closed(t) && Course(t, policy, trees) && |trees| == |policy| + 1 && i < |policy|
    requires Above(q, policy[i].path) && !Listed(policy, |policy|, q)
    ensures CanSearch(trees[|policy|], q)
  {
    LineReached(t, policy, trees, i);
    var from := if OperationFor(t, policy[i]) == [] then 0 else i + 1;
    assert CanSearch(trees[from], q);
    Untouched(t, policy, trees, from, |policy|, q);
  }

  /** A line's path can be reached in the end unless a line above shuts it off. */
  lemma ReachedInTheEnd(t: Tree, policy: Policy, trees: seq<Tree>, i: nat)
    requires Closed(t) && Distinct(policy) && Course(t, policy, trees) && |trees| == |policy| + 1 && i < |policy|
    ensures Reachable(trees[|policy|], policy[i].path)
       <==> forall j :: 0 <= j < |policy| && Above(policy[j].path, policy[i].path) ==>
           Searchable(FinalMode(t, policy[j]))
  {
    var after := trees[|policy|];
    FinalModes(t, policy, trees, i);
    CourseSettles(t, policy, trees, |policy|);
    forall j | 0 <= j < |policy| && Above(policy[j].path, policy[i].path)
      ensures CanSearch(after, policy[j].path) <==> Searchable(FinalMode(t, policy[j]))
    {
      FinalModes(t, policy, trees, j);
      AncestorIsDir(after, policy[i].path, policy[j].path);
    }
    forall q | Above(q, policy[i].path) && !Listed(policy, |policy|, q) ensures CanSearch(after, q) {
      UnlistedSearchable(t, policy, trees, i, q);
    }
  }

  /** What a second look finds for one line. */
  lemma LineSeenAgain(t: Tree, policy: Policy, trees: seq<Tree>, i: nat)
    requires Closed(t) && Distinct(policy) && !AnyBlocked(t, policy)
    requires Course(t, policy, trees) && |trees| == |policy| + 1 && i < |policy|
    ensures !BlockedBy(trees[|policy|], policy[i])
    ensures OperationFor(trees[|policy|], policy[i]) == []
       <==> Reachable(trees[|policy|], policy[i].path) && !(policy[i].mode == 0 && OperationFor(t, policy[i]) != [])
  {
    var after, e := trees[|policy|], policy[i];
    FinalModes(t, policy, trees, i);
    CourseSettles(t, policy, trees, |policy|);
    StatSpec(after, e.path);
    StatSpec(t, e.path);
    assert !BlockedBy(t, e);
    if OperationFor(t, e) != [] && !Stat(t, e.path).Found? { MadeIsDir(t, policy, trees, i); }
  }

  lemma MadeIsDir(t: Tree, policy: Policy, trees: seq<Tree>, i: nat)
    requires Closed(t) && Distinct(policy) && Course(t, policy, trees) && |trees| == |policy| + 1 && i < |policy|
    requires !Stat(t, policy[i].path).Found?
    ensures DirAt(trees[|policy|], policy[i].path)
  {
    assert StepOfCourse(t, policy, trees, i);
    Untouched(t, policy, trees, i + 1, |policy|, policy[i].path);
  }

  /** What a second look finds at `after`. */
  ghost predicate Fixpoint(t: Tree, policy: Policy, after: Tree) {
    && !AnyBlocked(after, policy)
    && (forall i :: 0 <= i < |policy| ==> policy[i].path in after)
    && (Operations(after, policy, |policy|) == [] <==> ZeroModesSettled(t, policy) && StillSearchable(t, policy))
  }

  lemma CourseFixpoint(t: Tree, policy: Policy, trees: seq<Tree>)
    requires Closed(t) && Distinct(policy) && !AnyBlocked(t, policy)
    requires Course(t, policy, trees) && |trees| == |policy| + 1
    ensures Fixpoint(t, policy, trees[|policy|])
  {
    var after := trees[|policy|];
    NoOperations(after, policy);
    forall i | 0 <= i < |policy|
      ensures policy[i].path in after && !BlockedBy(after, policy[i])
      ensures OperationFor(after, policy[i]) == []
         <==> Reachable(after, policy[i].path) && !(policy[i].mode == 0 && OperationFor(t, policy[i]) != [])
      ensures Reachable(after, policy[i].path)
         <==> forall j :: 0 <= j < |policy| && Above(policy[j].path, policy[i].path) ==>
             Searchable(FinalMode(t, policy[j]))
    {
      FinalModes(t, policy, trees, i);
      LineSeenAgain(t, policy, trees, i);
      ReachedInTheEnd(t, policy, trees, i);
    }
  }

  /** Looking again after a successful apply: never blocked and every path in the tree; nothing is
      left to do exactly when no line that was applied asks for mode 0000 and no line takes the
      search bit from a directory above another line's path. */
  lemma PlanReachesFixpoint(t: Tree, policy: Policy)
    requires Closed(t) && Distinct(policy) && !AnyBlocked(t, policy)
    requires Applied(t, Operations(t, policy, |policy|)).ok
    ensures Fixpoint(t, policy, Applied(t, Operations(t, policy, |policy|)).tree)
  {
    AppliedByLine(t, policy);
    var trees := ApplyCourse(t, policy);
    CourseFixpoint(t, policy, trees);
  }

  /** Nothing is planned exactly when no line asks for anything. */
  lemma NoOperations(t: Tree, policy: Policy)
    ensures Operations(t, policy, |policy|) == []
       <==> forall i :: 0 <= i < |policy| ==> OperationFor(t, policy[i]) == []
  {
    var upTo, pieces := PlanUpTo(t, policy), Plan(t, policy);
    NoPieces(upTo, pieces, |policy|);
    if upTo[|policy|] == [] {
      forall i | 0 <= i < |policy| ensures OperationFor(t, policy[i]) == [] { assert pieces[i] == []; }
    } else {
      var i :| 0 <= i < |policy| && pieces[i] != [];
      assert OperationFor(t, policy[i]) != [];
    }
  }

  // ---------------------------------------------------------------- rollback is the inverse

  /** Checked before the run: every missing ancestor of a missing policy path is itself a line of
      the policy, further up. */
  ghost predicate AncestorsListed(t: Tree, policy: Policy) {
    forall i :: 0 <= i < |policy| && policy[i].path !in t ==> AncestorsListedFor(t, policy, i)
  }

  ghost predicate AncestorsListedFor(t: Tree, policy: Policy, i: nat)
    requires i < |policy|
  {
    forall q :: Above(q, policy[i].path) && q !in t ==> Listed(policy, i, q)
  }

  /** No path the plan changes has bits above 0777. */
  ghost predicate PlainModes(t: Tree, policy: Policy) {
    forall i :: 0 <= i < |policy| && policy[i].path in t && OperationFor(t, policy[i]) != [] ==>
        t[policy[i].path].mode < 512
  }

  /** No policy path that is there lies behind a directory that cannot be searched. */
  ghost predicate NothingHidden(t: Tree, policy: Policy) {
    forall i :: 0 <= i < |policy| && policy[i].path in t ==> Reachable(t, policy[i].path)
  }

  /** All that a rollback needs to be exact. */
  ghost predicate Undoable(t: Tree, policy: Policy) {
    AncestorsListed(t, policy) && PlainModes(t, policy) && NothingHidden(t, policy)
  }

  /** The tree after n lines of an undoable policy: exactly the listed paths are new. */
  ghost predicate OnlyListed(t0: Tree, policy: Policy, n: nat, t: Tree)
    requires n <= |policy|
  {
    && Settled(t0, policy, n, t)
    && (forall q :: q in t ==> q in t0 || Listed(policy, n, q))
    && (forall i :: n <= i < |policy| && policy[i].path in t0 ==> t[policy[i].path] == t0[policy[i].path])
  }

  lemma NewLeaf(t: Tree, op: Operation, r: Tree)
    requires Closed(t) && op.path !in t && (forall q :: Above(q, op.path) ==> q in t) && Did(t, op, r)
    ensures r.Keys == t.Keys + {op.path}
    ensures RemoveOne(r, op.path) == Outcome(true, t)
  {
    var p := op.path;
    assert p != [] by { assert [] in t; }
    forall q | q in r && q !in t ensures q == p { assert AtOrAbove(q, p) ==> q == p || Above(q, p); }
    forall q | q in r ensures !Above(p, q) {
      if Above(p, q) { assert q != p; AncestorIsDir(t, q, p); }
    }
    StatSpec(r, p);
    assert r - {p} == t;
  }

  lemma ModeBack(t: Tree, op: Operation, r: Tree)
    requires Closed(t) && op.path in t && t[op.path].mode < 512 && Did(t, op, r)
    ensures r.Keys == t.Keys
    ensures SetMode(r, op.path, t[op.path].mode) == Outcome(true, t)
  {
    forall q | q in r ensures q in t {
      assert AtOrAbove(q, op.path) ==> q == op.path || Above(q, op.path);
      if q !in t { AncestorIsDir(t, op.path, q); }
    }
    SetModeSpec(r, op.path, t[op.path].mode);
    var back := SetMode(r, op.path, t[op.path].mode).tree;
    assert back[op.path] == t[op.path];
    assert back == t;
  }

  /** When its turn comes, a missing line is missing and everything above it is there. */
  lemma AncestorsThere(t0: Tree, policy: Policy, n: nat, t: Tree)
    requires Closed(t0) && Distinct(policy) && AncestorsListed(t0, policy)
    requires n < |policy| && OnlyListed(t0, policy, n, t) && policy[n].path !in t0
    ensures policy[n].path !in t && forall q :: Above(q, policy[n].path) ==> q in t
  {
    var p := policy[n].path;
    assert !Listed(policy, n, p) && AncestorsListedFor(t0, policy, n);
    forall q | Above(q, p) ensures q in t {
      if q !in t0 {
        assert Listed(policy, n, q);
        ListedIsThere(t0, policy, n, t, q);
      }
    }
  }

  lemma ListedIsThere(t0: Tree, policy: Policy, n: nat, t: Tree, q: Path)
    requires Closed(t0) && n <= |policy| && Settled(t0, policy, n, t) && Listed(policy, n, q)
    ensures q in t
  {
    var i :| 0 <= i < n && policy[i].path == q;
    StatSpec(t0, q);
    if q !in t0 { assert OperationFor(t0, policy[i]) != []; }
  }

  lemma UndoOneSpec(t0: Tree, e: Expected, t: Tree, r: Tree)
    requires Closed(t0) && Closed(t) && OperationFor(t0, e) != [] && Did(t, OperationFor(t0, e)[0], r)
    requires if e.path in t0 then Reachable(t0, e.path) && e.path in t && t[e.path] == t0[e.path]
               && t0[e.path].mode < 512
             else e.path !in t && forall q :: Above(q, e.path) ==> q in t
    ensures UndoOne(r, EntryFor(t0, e)[0]) == Outcome(true, t)
    ensures r.Keys == t.Keys + {e.path}
  {
    StatSpec(t0, e.path);
    if e.path in t0 {
      ModeBack(t, OperationFor(t0, e)[0], r);
    } else {
      NewLeaf(t, OperationFor(t0, e)[0], r);
    }
  }

  /** Undoing a line gives back the tree its operation started from. */
  lemma UndoStep(t0: Tree, policy: Policy, n: nat, t: Tree, r: Tree)
    requires Closed(t0) && Distinct(policy) && Undoable(t0, policy)
    requires n < |policy| && OnlyListed(t0, policy, n, t)
    requires OperationFor(t0, policy[n]) != [] && Did(t, OperationFor(t0, policy[n])[0], r)
    ensures UndoOne(r, EntryFor(t0, policy[n])[0]) == Outcome(true, t)
    ensures r.Keys == t.Keys + {policy[n].path}
  {
    if policy[n].path !in t0 { AncestorsThere(t0, policy, n, t); }
    UndoOneSpec(t0, policy[n], t, r);
  }

  lemma OnlyListedStep(t0: Tree, policy: Policy, n: nat, t: Tree, r: Tree)
    requires Distinct(policy) && n < |policy| && OnlyListed(t0, policy, n, t)
    requires OperationFor(t0, policy[n]) != [] && Did(t, OperationFor(t0, policy[n])[0], r)
    requires r.Keys == t.Keys + {policy[n].path}
    ensures OnlyListed(t0, policy, n + 1, r)
  {
    SettledStep(t0, policy, n, t, r);
    NewKeysListed(t0, policy, n, t, r);
    LaterLines(t0, policy, n, t, r);
  }

  lemma NewKeysListed(t0: Tree, policy: Policy, n: nat, t: Tree, r: Tree)
    requires n < |policy| && r.Keys == t.Keys + {policy[n].path}
    requires forall q :: q in t ==> q in t0 || Listed(policy, n, q)
    ensures forall q :: q in r ==> q in t0 || Listed(policy, n + 1, q)
  {
    ListedMore(policy, n);
  }

  lemma LaterLines(t0: Tree, policy: Policy, n: nat, t: Tree, r: Tree)
    requires Distinct(policy) && n < |policy| && forall q :: q in t0 ==> q in t && q in r
    requires forall i :: n <= i < |policy| && policy[i].path in t0 ==> t[policy[i].path] == t0[policy[i].path]
    requires forall q :: q in t && q in r && q != policy[n].path ==> r[q] == t[q]
    ensures forall i :: n + 1 <= i < |policy| && policy[i].path in t0 ==> r[policy[i].path] == t0[policy[i].path]
  {
  }

  lemma OnlyListedIdle(t0: Tree, policy: Policy, k: nat, t: Tree)
    requires k < |policy| && OnlyListed(t0, policy, k, t) && OperationFor(t0, policy[k]) == []
    ensures OnlyListed(t0, policy, k + 1, t)
  {
    ListedMore(policy, k);
  }

  lemma OnlyListedNext(t0: Tree, policy: Policy, k: nat, t: Tree, r: Tree)
    requires Closed(t0) && Distinct(policy) && Undoable(t0, policy)
    requires k < |policy| && OnlyListed(t0, policy, k, t) && LineDid(t0, policy[k], t, r)
    ensures OnlyListed(t0, policy, k + 1, r)
  {
    if OperationFor(t0, policy[k]) != [] {
      UndoStep(t0, policy, k, t, r);
      OnlyListedStep(t0, policy, k, t, r);
    } else {
      OnlyListedIdle(t0, policy, k, t);
    }
  }

  lemma {:induction false} CourseOnlyListed(t0: Tree, policy: Policy, trees: seq<Tree>, n: nat)
    requires Closed(t0) && Distinct(policy) && Undoable(t0, policy)
    requires Course(t0, policy, trees) && n < |trees|
    ensures OnlyListed(t0, policy, n, trees[n])
  {
    if n > 0 {
      var k: nat := n - 1;
      CourseOnlyListed(t0, policy, trees, k);
      assert StepOfCourse(t0, policy, trees, k);
      OnlyListedNext(t0, policy, k, trees[k], trees[k + 1]);
    }
  }

  /** Undoing line k goes back one tree of the course. */
  lemma CourseBack(t0: Tree, policy: Policy, trees: seq<Tree>, k: nat)
    requires Closed(t0) && Distinct(policy) && Undoable(t0, policy)
    requires Course(t0, policy, trees) && k + 1 < |trees|
    ensures LineBack(t0, policy[k], trees[k + 1]) == Outcome(true, trees[k])
  {
    CourseOnlyListed(t0, policy, trees, k);
    assert StepOfCourse(t0, policy, trees, k);
    if OperationFor(t0, policy[k]) != [] { UndoStep(t0, policy, k, trees[k], trees[k + 1]); }
  }

  lemma UndoAll(t0: Tree, policy: Policy, trees: seq<Tree>, n: nat)
    requires Closed(t0) && Distinct(policy) && Undoable(t0, policy)
    requires Course(t0, policy, trees) && n < |trees|
    ensures LinesBack(n, trees[n], Undoing(t0, policy)) == Outcome(true, t0)
  {
    forall i: nat | i < n ensures Undoing(t0, policy)(i, trees[i + 1]) == Outcome(true, trees[i]) {
      CourseBack(t0, policy, trees, i);
    }
    LinesBackAlong(n, trees, Undoing(t0, policy));
  }

  /** What undoing one line without an error can do to any tree. */
  ghost predicate LineUndone(t0: Tree, e: Expected, t: Tree, r: Tree) {
    && Closed(r)
    && (OperationFor(t0, e) == [] ==> r == t)
    && (forall q :: q in r ==> q in t)
    && (forall q :: q in t && q != e.path ==> q in r && r[q] == t[q])
    && (Stat(t0, e.path).Found? && e.path in t ==> e.path in r)
    && (Stat(t0, e.path).Found? && e.path in t && OperationFor(t0, e) != [] ==> r[e.path].mode < 512)
    && (!Stat(t0, e.path).Found? ==> e.path !in r)
    && (forall q :: q in t && Above(e.path, q) ==> Stat(t0, e.path).Found? && e.path in r)
  }

  ghost predicate StepBack(t0: Tree, policy: Policy, trees: seq<Tree>, i: nat)
    requires i < |policy| && i + 1 < |trees|
  {
    LineUndone(t0, policy[i], trees[i + 1], trees[i])
  }

  ghost predicate WayBack(t0: Tree, policy: Policy, trees: seq<Tree>) {
    && 1 <= |trees| <= |policy| + 1
    && forall i :: 0 <= i < |trees| - 1 ==> StepBack(t0, policy, trees, i)
  }

  lemma LineBackSpec(t0: Tree, e: Expected, t: Tree)
    requires Closed(t) && LineBack(t0, e, t).ok
    ensures LineUndone(t0, e, t, LineBack(t0, e, t).tree)
  {
    var entry := EntryFor(t0, e);
    if entry != [] {
      RemovedSpec(t, e.path);
      SetModeSpec(t, e.path, entry[0].mode);
    }
    forall q | q in t && Above(e.path, q) ensures e.path in t { AncestorIsDir(t, q, e.path); }
  }

  lemma UndoingSpec(t0: Tree, policy: Policy, i: nat, t: Tree, r: Tree)
    requires i < |policy| && Closed(t) && Undoing(t0, policy)(i, t) == Outcome(true, r)
    ensures LineUndone(t0, policy[i], t, r)
  {
    LineBackSpec(t0, policy[i], t);
  }

  lemma {:induction false} WayBackClosed(t0: Tree, policy: Policy, trees: seq<Tree>, n: nat)
    requires n < |trees| == |policy| + 1 && Closed(trees[|policy|])
    requires forall i: nat :: i < |policy| ==> Undoing(t0, policy)(i, trees[i + 1]) == Outcome(true, trees[i])
    ensures Closed(trees[n])
    decreases |policy| - n
  {
    if n < |policy| {
      WayBackClosed(t0, policy, trees, n + 1);
      UndoingSpec(t0, policy, n, trees[n + 1], trees[n]);
    }
  }

  lemma UndoCourse(t0: Tree, policy: Policy, t: Tree) returns (trees: seq<Tree>)
    requires Closed(t) && LinesBack(|policy|, t, Undoing(t0, policy)).ok
    ensures WayBack(t0, policy, trees) && |trees| == |policy| + 1
    ensures trees[|policy|] == t && trees[0] == LinesBack(|policy|, t, Undoing(t0, policy)).tree
  {
    trees := LinesBackCourse(|policy|, t, Undoing(t0, policy));
    forall i | 0 <= i < |policy| ensures StepBack(t0, policy, trees, i) {
      WayBackClosed(t0, policy, trees, i + 1);
      UndoingSpec(t0, policy, i, trees[i + 1], trees[i]);
    }
  }

  /** A directory made on the way to line i stays if it has no line before that. */
  lemma {:induction false} KeepsAncestor(t0: Tree, policy: Policy, trees: seq<Tree>, k: nat, i: nat, q: Path)
    requires Distinct(policy) && WayBack(t0, policy, trees) && k < |trees| && i < |policy|
    requires Above(q, policy[i].path) && !Listed(policy, i, q)
    requires q in trees[k] && (k > i ==> policy[i].path in trees[k])
    ensures q in trees[0]
    decreases k
  {
    if k > 0 {
      assert StepBack(t0, policy, trees, k - 1);
      KeepsAncestor(t0, policy, trees, k - 1, i, q);
    }
  }

  lemma {:induction false} HighBitsLost(t0: Tree, policy: Policy, trees: seq<Tree>, k: nat, i: nat)
    requires Distinct(policy) && WayBack(t0, policy, trees) && k < |trees| && i < |policy|
    requires Stat(t0, policy[i].path).Found? && policy[i].path in trees[k] && OperationFor(t0, policy[i]) != []
    requires k <= i ==> trees[k][policy[i].path].mode < 512
    ensures policy[i].path in trees[0] && trees[0][policy[i].path].mode < 512
    decreases k
  {
    if k > 0 {
      assert StepBack(t0, policy, trees, k - 1);
      HighBitsLost(t0, policy, trees, k - 1, i);
    }
  }

  /** What could not be seen is removed on the way back. */
  lemma {:induction false} HiddenIsRemoved(t0: Tree, policy: Policy, trees: seq<Tree>, k: nat, i: nat)
    requires WayBack(t0, policy, trees) && k < |trees| && i < |policy| && !Stat(t0, policy[i].path).Found?
    requires k <= i ==> policy[i].path !in trees[k]
    requires i < |trees| - 1
    ensures policy[i].path !in trees[0]
    decreases k
  {
    if k > 0 {
      assert StepBack(t0, policy, trees, k - 1);
      HiddenIsRemoved(t0, policy, trees, k - 1, i);
    }
  }

  lemma RestoredNeeds(t: Tree, policy: Policy, trees: seq<Tree>)
    requires Closed(t) && Distinct(policy) && Course(t, policy, trees) && |trees| == |policy| + 1
    requires LinesBack(|policy|, trees[|policy|], Undoing(t, policy)) == Outcome(true, t)
    ensures Undoable(t, policy)
  {
    var n := |policy|;
    CourseSettles(t, policy, trees, n);
    var back := UndoCourse(t, policy, trees[n]);
    forall i | 0 <= i < n && policy[i].path in t ensures Reachable(t, policy[i].path) {
      StatSpec(t, policy[i].path);
      if !Reachable(t, policy[i].path) { HiddenIsRemoved(t, policy, back, n, i); }
    }
    forall i | 0 <= i < n && policy[i].path !in t ensures AncestorsListedFor(t, policy, i) {
      StatSpec(t, policy[i].path);
      assert OperationFor(t, policy[i]) != [];
      forall q | Above(q, policy[i].path) && q !in t ensures Listed(policy, i, q) {
        AncestorIsDir(trees[n], policy[i].path, q);
        if !Listed(policy, i, q) { KeepsAncestor(t, policy, back, n, i, q); }
      }
    }
    forall i | 0 <= i < n && policy[i].path in t && OperationFor(t, policy[i]) != []
      ensures t[policy[i].path].mode < 512
    {
      StatSpec(t, policy[i].path);
      HighBitsLost(t, policy, back, n, i);
    }
  }

  lemma RestoresIff(t: Tree, policy: Policy, trees: seq<Tree>)
    requires Closed(t) && Distinct(policy) && Course(t, policy, trees) && |trees| == |policy| + 1
    ensures LinesBack(|policy|, trees[|policy|], Undoing(t, policy)) == Outcome(true, t) <==> Undoable(t, policy)
  {
    if Undoable(t, policy) {
      UndoAll(t, policy, trees, |policy|);
    } else if LinesBack(|policy|, trees[|policy|], Undoing(t, policy)) == Outcome(true, t) {
      RestoredNeeds(t, policy, trees);
    }
  }

  /** After a successful apply the rollback meets no error and gives the tree back exactly when every
      missing ancestor of a missing policy path is listed above it, no changed path had bits above
      0777, and no policy path was there but hidden. (A rollback that meets an error can still end in
      the old tree, when what it could not remove was there before.) */
  lemma RollbackIsInverse(t: Tree, policy: Policy)
    requires Closed(t) && Distinct(policy) && Applied(t, Operations(t, policy, |policy|)).ok
    ensures RolledBack(Applied(t, Operations(t, policy, |policy|)).tree, Entries(t, policy, |policy|))
              == Outcome(true, t)
       <==> Undoable(t, policy)
  {
    var after := Applied(t, Operations(t, policy, |policy|)).tree;
    AppliedByLine(t, policy);
    RolledBackByLine(t, policy, after);
    var trees := ApplyCourse(t, policy);
    RestoresIff(t, policy, trees);
  }

  // ---------------------------------------------------------------- an apply that stops half-way

  /** The entry of a line that was never applied changes nothing. */
  lemma UnappliedLine(t0: Tree, policy: Policy, n: nat, i: nat, t: Tree)
    requires Closed(t0) && Distinct(policy) && Undoable(t0, policy) && n <= i < |policy| && OnlyListed(t0, policy, n, t)
    ensures LineBack(t0, policy[i], t).tree == t
  {
    var p := policy[i].path;
    assert !Listed(policy, n, p);
    StatSpec(t0, p);
    if p in t0 {
      SetModeSpec(t, p, Perm(t0[p].mode));
      if OperationFor(t0, policy[i]) != [] {
        assert Perm(t0[p].mode) == t0[p].mode;
        assert t[p := if t[p].Dir? then Dir(t[p].mode) else File(t[p].content, t[p].mode)] == t;
      }
    } else {
      RemovedSpec(t, p);
    }
  }

  /** A line that fails leaves the tree as it found it. */
  lemma FailingLine(t0: Tree, policy: Policy, n: nat, t: Tree)
    requires Closed(t0) && Distinct(policy) && Undoable(t0, policy) && n < |policy| && OnlyListed(t0, policy, n, t)
    ensures !LineDone(t0, policy[n], t).ok ==> LineDone(t0, policy[n], t).tree == t
  {
    var p := policy[n].path;
    if p !in t0 {
      AncestorsThere(t0, policy, n, t);
      assert p != [] ==> Above(Parent(p), p);
    }
    if OperationFor(t0, policy[n]) != [] { ApplyOneSpec(t, OperationFor(t0, policy[n])[0]); }
  }

  /** How far an apply gets; the line it stops at changes nothing. */
  lemma StoppedCourse(t0: Tree, policy: Policy) returns (k: nat, trees: seq<Tree>)
    requires Closed(t0) && Distinct(policy) && Undoable(t0, policy)
    ensures k <= |policy| && Course(t0, policy, trees) && |trees| == k + 1
    ensures trees[k] == Lines(|policy|, t0, Doing(t0, policy)).tree
  {
    k, trees := LinesCourse(|policy|, t0, Doing(t0, policy));
    CourseOf(t0, policy, trees, k);
    if k < |policy| {
      CourseOnlyListed(t0, policy, trees, k);
      FailingLine(t0, policy, k, trees[k]);
      assert Doing(t0, policy)(k, trees[k]) == LineDone(t0, policy[k], trees[k]);
    }
  }

  /** Whether the apply finished or stopped, the rollback restores the tree. For an apply that stopped
      this is one direction: the lines behind the stop need not meet the condition. */
  lemma RollbackAlwaysRestores(t: Tree, policy: Policy)
    requires Closed(t) && Distinct(policy) && Undoable(t, policy)
    ensures RolledBack(Applied(t, Operations(t, policy, |policy|)).tree, Entries(t, policy, |policy|)).tree == t
  {
    AppliedByLine(t, policy);
    var k, trees := StoppedCourse(t, policy);
    RolledBackByLine(t, policy, trees[k]);
    CourseOnlyListed(t, policy, trees, k);
    UndoAll(t, policy, trees, k);
    forall i: nat | k <= i < |policy| ensures Undoing(t, policy)(i, trees[k]).tree == trees[k] {
      UnappliedLine(t, policy, k, i, trees[k]);
    }
    IdleLines(k, |policy|, trees[k], Undoing(t, policy));
  }

  // ---------------------------------------------------------------- the policies

  function Line(path: Path): Expected {
    Expected(path, true, MODE_0775, true)
  }

  datatype Framework = Express | FastApi | Flask | Go | Java | Laravel | Rails | Ruby

  function PolicyFor(f: Framework): Policy {
    match f
    case Express => [Line(["logs"]), Line(["tmp"]), Line(["uploads"]), Line([".cache"])]
    case FastApi => [Line(["instance"]), Line(["logs"]), Line(["tmp"]), Line(["uploads"])]
    case Flask => [Line(["instance"]), Line(["logs"]), Line(["tmp"]), Line(["uploads"])]
    case Go => [Line(["data"]), Line(["logs"]), Line(["tmp"])]
    case Java => [Line(["logs"]), Line(["tmp"]), Line(["uploads"])]
    case Laravel => [Line(["storage"]), Line(["storage", "logs"]), Line(["storage", "framework", "cache"]),
                     Line(["storage", "framework", "sessions"]), Line(["storage", "framework", "views"]),
                     Line(["bootstrap", "cache"])]
    case Rails => [Line(["log"]), Line(["storage"]), Line(["tmp"]), Line(["tmp", "cache"]), Line(["public", "assets"])]
    case Ruby => [Line(["log"]), Line(["storage"]), Line(["tmp"])]
  }

  const BARE: Tree := map[[] := Dir(MODE_0755)]

  /** Both policies end with a path whose first segment is on no line before it. */
  lemma LastLineUnlisted(f: Framework)
    requires f in {Laravel, Rails}
    ensures Closed(BARE) && CanSearch(BARE, []) && !AncestorsListed(BARE, PolicyFor(f))
  {
    var policy := PolicyFor(f);
    var i, q: Path := |policy| - 1, policy[|policy| - 1].path[..1];
    assert policy[i].path !in BARE && Above(q, policy[i].path) && q !in BARE;
    assert forall k :: 0 <= k < i ==> |policy[k].path[0]| != |q[0]|;
    assert !Listed(policy, i, q);
    assert !AncestorsListedFor(BARE, policy, i);
  }

  lemma SingleSegments(f: Framework)
    requires f !in {Laravel, Rails}
    ensures forall i :: 0 <= i < |PolicyFor(f)| ==> |PolicyFor(f)[i].path| == 1
  {
  }

  lemma SingleSegmentsRollBack(t: Tree, policy: Policy)
    requires Closed(t) && CanSearch(t, []) && forall i :: 0 <= i < |policy| ==> |policy[i].path| == 1
    ensures AncestorsListed(t, policy) && NothingHidden(t, policy)
  {
    forall i | 0 <= i < |policy|
      ensures AncestorsListedFor(t, policy, i) && Reachable(t, policy[i].path)
    {
      assert forall q :: Above(q, policy[i].path) ==> q == [];
    }
  }

  lemma PathsDiffer(f: Framework)
    ensures Distinct(PolicyFor(f))
  {
  }

  /** On every tree whose root can be searched the rollback of a framework's policy is exact, apart
      from high mode bits, exactly for the six frameworks other than Laravel and Rails. */
  lemma WhichPoliciesRollBack(f: Framework)
    ensures Distinct(PolicyFor(f))
    ensures (forall t :: Closed(t) && CanSearch(t, []) ==>
             AncestorsListed(t, PolicyFor(f)) && NothingHidden(t, PolicyFor(f)))
       <==> f !in {Laravel, Rails}
  {
    PathsDiffer(f);
    if f in {Laravel, Rails} {
      LastLineUnlisted(f);
    } else {
      SingleSegments(f);
      forall t | Closed(t) && CanSearch(t, [])
        ensures AncestorsListed(t, PolicyFor(f)) && NothingHidden(t, PolicyFor(f))
      {
        SingleSegmentsRollBack(t, PolicyFor(f));
      }
    }
  }

  // ---------------------------------------------------------------- what is hidden is lost

  const STORAGE: Path := ["storage"]
  const LOGS: Path := ["storage", "logs"]
  const SHUT: Tree := map[[] := Dir(448), STORAGE := Dir(384), LOGS := Dir(493)]
  const OPENED: Tree := map[[] := Dir(448), STORAGE := Dir(509), LOGS := Dir(493)]
  const REPAIRED: Tree := map[[] := Dir(448), STORAGE := Dir(509), LOGS := Dir(509)]
  const HEAD: Policy := [Line(STORAGE), Line(LOGS)]

  lemma ShutTrees()
    ensures Closed(SHUT) && Closed(OPENED) && Closed(REPAIRED)
    ensures Stat(SHUT, STORAGE) == Found(Dir(384)) && !Stat(SHUT, LOGS).Found?
    ensures Reachable(OPENED, LOGS) && Reachable(REPAIRED, LOGS)
  {
    assert Parent(STORAGE) == [] && Parent(LOGS) == STORAGE;
    forall q ensures Above(q, STORAGE) <==> q == [] {}
    forall q ensures Above(q, LOGS) <==> q == [] || q == STORAGE {
      if Above(q, LOGS) && |q| == 1 { assert q == LOGS[..1]; }
    }
    assert CanSearch(SHUT, []) && !CanSearch(SHUT, STORAGE);
    assert CanSearch(OPENED, []) && CanSearch(OPENED, STORAGE) && CanSearch(REPAIRED, [])
        && CanSearch(REPAIRED, STORAGE);
    StatSpec(SHUT, STORAGE);
    StatSpec(SHUT, LOGS);
  }

  lemma ShutApply()
    ensures LineDone(SHUT, HEAD[0], SHUT) == Outcome(true, OPENED)
    ensures LineDone(SHUT, HEAD[1], OPENED) == Outcome(true, REPAIRED)
  {
    ShutTrees();
    SetModeSpec(SHUT, STORAGE, MODE_0775);
    StatSpec(SHUT, STORAGE);
    assert SHUT[STORAGE := Dir(509)] == OPENED;
    MakeDirsSpec(OPENED, LOGS, MODE_0775);
    StatSpec(OPENED, LOGS);
    SetModeSpec(OPENED, LOGS, MODE_0775);
    assert OPENED[LOGS := Dir(509)] == REPAIRED;
  }

  lemma ShutConditions()
    ensures Distinct(HEAD) && AncestorsListed(SHUT, HEAD) && PlainModes(SHUT, HEAD) && !NothingHidden(SHUT, HEAD)
  {
    ShutTrees();
    StatSpec(SHUT, LOGS);
    assert HEAD[1].path == LOGS && LOGS in SHUT && !Reachable(SHUT, LOGS);
  }

  lemma ShutApplied()
    ensures Lines(2, SHUT, Doing(SHUT, HEAD)) == Outcome(true, REPAIRED)
  {
    ShutApply();
    var line := Doing(SHUT, HEAD);
    assert line(0, SHUT) == Outcome(true, OPENED) && line(1, OPENED) == Outcome(true, REPAIRED);
    assert Lines(1, SHUT, line) == Outcome(true, OPENED);
  }

  lemma ShutRemoved()
    ensures LineBack(SHUT, HEAD[1], REPAIRED) == Outcome(true, REPAIRED - {LOGS})
  {
    ShutTrees();
    StatSpec(REPAIRED, LOGS);
    assert Parent(LOGS) == STORAGE && CanEdit(REPAIRED, STORAGE);
    forall q | q in REPAIRED ensures !Above(LOGS, q) {}
  }

  lemma StaysAway(t: Tree)
    requires LOGS !in t
    ensures LOGS !in LinesBack(1, t, Undoing(SHUT, HEAD)).tree
  {
    ShutTrees();
    var line := Undoing(SHUT, HEAD);
    assert line(0, t) == LineBack(SHUT, HEAD[0], t) && HEAD[0].path == STORAGE;
    assert LOGS !in LineBack(SHUT, HEAD[0], t).tree;
    assert LinesBack(1, t, line).tree == line(0, t).tree;
  }

  lemma LastLineBack(t: Tree)
    ensures LinesBack(2, t, Undoing(SHUT, HEAD)).tree
         == LinesBack(1, LineBack(SHUT, HEAD[1], t).tree, Undoing(SHUT, HEAD)).tree
  {
    var line := Undoing(SHUT, HEAD);
    assert line(1, t) == LineBack(SHUT, HEAD[1], t);
  }

  lemma ShutRolledBack()
    ensures LOGS !in LinesBack(2, REPAIRED, Undoing(SHUT, HEAD)).tree
  {
    ShutRemoved();
    LastLineBack(REPAIRED);
    StaysAway(REPAIRED - {LOGS});
  }

  lemma HeadOfLaravel()
    ensures HEAD == PolicyFor(Laravel)[..2]
  {
  }

  lemma ShutRun()
    ensures Applied(SHUT, Operations(SHUT, HEAD, |HEAD|)) == Outcome(true, REPAIRED)
  {
    ShutConditions();
    ShutTrees();
    AppliedByLine(SHUT, HEAD);
    ShutApplied();
  }

  lemma ShutRunBack()
    ensures LOGS !in RolledBack(REPAIRED, Entries(SHUT, HEAD, |HEAD|)).tree
  {
    ShutConditions();
    ShutTrees();
    RolledBackByLine(SHUT, HEAD, REPAIRED);
    ShutRolledBack();
  }

  /** The first two lines of the Laravel policy on a tree where `storage` has lost its search bit:
      everything else the rollback needs is given and the apply works, yet the rollback removes
      the empty directory `storage/logs` that was there all the time. */
  lemma HiddenDirectoryLost()
    ensures HEAD == PolicyFor(Laravel)[..2] && Closed(SHUT) && LOGS in SHUT
    ensures Distinct(HEAD) && AncestorsListed(SHUT, HEAD) && PlainModes(SHUT, HEAD) && !NothingHidden(SHUT, HEAD)
    ensures Applied(SHUT, Operations(SHUT, HEAD, |HEAD|)) == Outcome(true, REPAIRED)
    ensures LOGS !in RolledBack(REPAIRED, Entries(SHUT, HEAD, |HEAD|)).tree
  {
    HeadOfLaravel();
    ShutTrees();
    ShutConditions();
    ShutRun();
    ShutRunBack();
  }

  // ---------------------------------------------------------------- Run

  datatype Status = BlockedPlan | DryRun | Unsupported | AlreadyFine
                  | ManifestFailed | ApplyFailed | VerifyFailed | Succeeded

  /** writeRollbackManifest. */
  function WriteManifest(t: Tree, name: string, text: string): Outcome {
    Write(t, Inside([STATE_DIR, "permission-rollbacks"], name, MODE_0600), text)
  }

  lemma ManifestInState(t: Tree, name: string, text: string)
    requires Closed(t)
    ensures Closed(WriteManifest(t, name, text).tree)
    ensures AgreeOutside([STATE_DIR], t, WriteManifest(t, name, text).tree)
  {
    ManifestAgrees(t, Inside([STATE_DIR, "permission-rollbacks"], name, MODE_0600), text);
  }

  /** The policy speaks of paths outside the engine's own state directory. */
  ghost predicate Elsewhere(policy: Policy) {
    forall i :: 0 <= i < |policy| ==> policy[i].path != [] && policy[i].path[0] != STATE_DIR
  }

  /** Every policy asks for directories to write in with mode 0775 and nothing wider, below the root and
      outside the state directory, each path once. */
  lemma PoliciesFit(f: Framework)
    ensures PolicyFor(f) != [] && Elsewhere(PolicyFor(f)) && Distinct(PolicyFor(f))
    ensures forall i :: 0 <= i < |PolicyFor(f)| ==>
              && PolicyFor(f)[i].dir && PolicyFor(f)[i].writable
              && PolicyFor(f)[i].mode == 7 * 64 + 7 * 8 + 5
  {
    PathsDiffer(f);
    forall i | 0 <= i < |PolicyFor(f)| ensures PolicyFor(f)[i].path[0] != STATE_DIR {
      assert |PolicyFor(f)[i].path[0]| < |STATE_DIR|;
    }
  }

  lemma SameLine(t: Tree, t1: Tree, e: Expected)
    requires AgreeOutside([STATE_DIR], t, t1) && e.path != [] && e.path[0] != STATE_DIR
    ensures Stat(t, e.path) == Stat(t1, e.path)
    ensures forall q :: AtOrAbove(q, e.path) ==> (q in t <==> q in t1) && (q in t ==> t[q] == t1[q])
  {
    assert forall q :: AtOrAbove(q, e.path) ==> !AtOrAbove([STATE_DIR], q);
    StatFromAgrees(t, t1, e.path, 0);
  }

  lemma {:induction false} SamePlanLines(t: Tree, t1: Tree, policy: Policy, n: nat)
    requires n <= |policy| && AgreeOutside([STATE_DIR], t, t1) && Elsewhere(policy)
    ensures Operations(t1, policy, n) == Operations(t, policy, n) && Entries(t1, policy, n) == Entries(t, policy, n)
  {
    if n > 0 {
      SamePlanLines(t, t1, policy, n - 1);
      SameLine(t, t1, policy[n - 1]);
    }
  }

  /** Writing the manifest changes neither the plan nor whether it can be rolled back. */
  lemma SamePlan(t: Tree, t1: Tree, policy: Policy)
    requires AgreeOutside([STATE_DIR], t, t1) && Elsewhere(policy)
    ensures Operations(t1, policy, |policy|) == Operations(t, policy, |policy|)
    ensures Entries(t1, policy, |policy|) == Entries(t, policy, |policy|)
    ensures Undoable(t, policy) ==> Undoable(t1, policy)
  {
    SamePlanLines(t, t1, policy, |policy|);
    if Undoable(t, policy) {
      forall i | 0 <= i < |policy|
        ensures policy[i].path !in t1 ==> AncestorsListedFor(t1, policy, i)
        ensures policy[i].path in t1 ==> Reachable(t1, policy[i].path)
        ensures policy[i].path in t1 && OperationFor(t1, policy[i]) != [] ==> t1[policy[i].path].mode < 512
      {
        SameLine(t, t1, policy[i]);
        assert policy[i].path !in t ==> AncestorsListedFor(t, policy, i);
        assert AtOrAbove(policy[i].path, policy[i].path) && forall q :: Above(q, policy[i].path) ==>
            AtOrAbove(q, policy[i].path);
      }
    }
  }

  /** What a run that has something to repair ends with, and the tree it leaves; `after` is the
      tree with the operations applied. */
  function Repaired(t: Tree, policy: Policy, canWriteAfter: Path -> bool, manifest: Outcome,
                    serviceOk: bool): (Status, Tree) {
    var applied := Applied(manifest.tree, Operations(t, policy, |policy|));
    var undone := RolledBack(applied.tree, Entries(t, policy, |policy|)).tree;
    if !manifest.ok then (ManifestFailed, manifest.tree)
    else if !applied.ok then (ApplyFailed, undone)
    else if AnyBlocked(applied.tree, policy) || Findings(applied.tree, policy, |policy|, canWriteAfter) != []
        || !serviceOk
    then (VerifyFailed, undone)
    else (Succeeded, applied.tree)
  }

  /** Run after the framework has been chosen. Every failure once the manifest is written goes
      through the rollback. */
  method Run(disk: Disk, policy: Policy, apply: bool, canWrite: Path -> bool, canWriteAfter: Path -> bool,
             name: string, text: string, serviceOk: bool)
    returns (status: Status)
    requires Closed(disk.tree) && Distinct(policy) && Elsewhere(policy)
    modifies disk
    ensures status == BlockedPlan <==> AnyBlocked(old(disk.tree), policy)
    ensures status == DryRun <==> !AnyBlocked(old(disk.tree), policy) && !apply
    ensures status in {Unsupported, AlreadyFine} <==>
              !AnyBlocked(old(disk.tree), policy) && apply && Operations(old(disk.tree), policy, |policy|) == []
    ensures status == AlreadyFine ==> Findings(old(disk.tree), policy, |policy|, canWrite) == []
    ensures status == Unsupported ==> Findings(old(disk.tree), policy, |policy|, canWrite) != []
    ensures status in {BlockedPlan, DryRun, Unsupported, AlreadyFine} ==> disk.tree == old(disk.tree)
    ensures status !in {BlockedPlan, DryRun, Unsupported, AlreadyFine} ==>
              (status, disk.tree)
              == Repaired(old(disk.tree), policy, canWriteAfter, WriteManifest(old(disk.tree), name, text), serviceOk)
    ensures status !in {BlockedPlan, DryRun, Unsupported, AlreadyFine} ==>
              var t := old(disk.tree);
              var manifest := WriteManifest(t, name, text);
              var applied := Applied(manifest.tree, Operations(t, policy, |policy|));
              && (status == ManifestFailed <==> !manifest.ok)
              && (status == ApplyFailed <==> manifest.ok && !applied.ok)
              && (status == Succeeded <==>
                    && manifest.ok && applied.ok && serviceOk
                    && forall i :: 0 <= i < |policy| ==> Met(applied.tree, policy[i], canWriteAfter))
              && (status == Succeeded ==> disk.tree == applied.tree)
              && (status in {ApplyFailed, VerifyFailed} ==>
                    disk.tree == RolledBack(applied.tree, Entries(t, policy, |policy|)).tree)
    ensures status == AlreadyFine ==> forall i :: 0 <= i < |policy| ==> Met(disk.tree, policy[i], canWrite)
    ensures status == Succeeded ==> forall i :: 0 <= i < |policy| ==> Met(disk.tree, policy[i], canWriteAfter)
    ensures status in {ManifestFailed, ApplyFailed, VerifyFailed} && Undoable(old(disk.tree), policy) ==>
              AgreeOutside([STATE_DIR], old(disk.tree), disk.tree)
  {
    NothingFound(disk.tree, policy, |policy|, canWrite);
    var findings, operations, blocked := InspectPolicy(disk.tree, policy, canWrite);
    if blocked { return BlockedPlan; }
    if !apply { return DryRun; }
    if operations == [] { return if findings != [] then Unsupported else AlreadyFine; }
    var manifest := WriteManifest(disk.tree, name, text);
    if !manifest.ok {
      ManifestInState(disk.tree, name, text);
      disk.tree := manifest.tree;
      return ManifestFailed;
    }
    var entries := Entries(disk.tree, policy, |policy|);
    RollbackRestoresRun(disk.tree, manifest.tree, policy, name, text);
    ManifestInState(disk.tree, name, text);
    disk.tree := manifest.tree;
    AppliedCloses(disk.tree, operations);
    var ok := ApplyOperations(disk, operations);
    if !ok {
      var _ := RollbackPermissions(disk, entries);
      return ApplyFailed;
    }
    NothingFound(disk.tree, policy, |policy|, canWriteAfter);
    var afterFindings, _, afterBlocked := InspectPolicy(disk.tree, policy, canWriteAfter);
    if afterBlocked || afterFindings != [] || !serviceOk {
      var _ := RollbackPermissions(disk, entries);
      return VerifyFailed;
    }
    return Succeeded;
  }

  lemma {:induction false} AppliedCloses(t: Tree, operations: seq<Operation>)
    requires Closed(t)
    ensures Closed(Applied(t, operations).tree)
  {
    if operations != [] {
      var init, op := operations[..|operations| - 1], operations[|operations| - 1];
      AppliedCloses(t, init);
      var before := Applied(t, init).tree;
      MakeDirsSpec(before, op.path, Effective(op.mode));
      SetModeSpec(before, op.path, Effective(op.mode));
      SetModeSpec(MakeDirs(before, op.path, Effective(op.mode)).tree, op.path, Effective(op.mode));
    }
  }

  /** Rolling back a run leaves only the engine's own directory different. */
  lemma RollbackRestoresRun(t: Tree, t1: Tree, policy: Policy, name: string, text: string)
    requires Closed(t) && Distinct(policy) && Elsewhere(policy) && t1 == WriteManifest(t, name, text).tree
    ensures var after := Applied(t1, Operations(t, policy, |policy|)).tree;
            Undoable(t, policy) ==> AgreeOutside([STATE_DIR], t, RolledBack(after, Entries(t, policy, |policy|)).tree)
  {
    ManifestInState(t, name, text);
    SamePlan(t, t1, policy);
    if Undoable(t, policy) { RollbackAlwaysRestores(t1, policy); }
  }
}
