/** internal/remediation/sourcefile.go: replace one piece of text in a source file, and put the
    file back when the restart or the verification fails. */
module SourceFile {
  import opened Wrappers
  import opened FileTree

  predicate OccursAt(s: string, sub: string, i: nat) {
    i + |sub| <= |s| && s[i..i + |sub|] == sub
  }

  predicate Contains(s: string, sub: string) {
    exists i :: 0 <= i <= |s| && OccursAt(s, sub, i)
  }

  ghost predicate IsFirst(s: string, sub: string, i: nat) {
    OccursAt(s, sub, i) && forall j :: 0 <= j < i ==> !OccursAt(s, sub, j)
  }

  /** strings.Replace(s, sub, with, 1). */
  function ReplaceFirst(s: string, sub: string, with: string): string {
    if sub <= s then with + s[|sub|..]
    else if s == "" then ""
    else [s[0]] + ReplaceFirst(s[1..], sub, with)
  }

  lemma OccursShift(s: string, sub: string, j: nat)
    requires s != ""
    ensures OccursAt(s[1..], sub, j) <==> OccursAt(s, sub, j + 1)
    ensures sub <= s <==> OccursAt(s, sub, 0)
  {
    if j + 1 + |sub| <= |s| { assert s[1..][j..j + |sub|] == s[j + 1..j + 1 + |sub|]; }
    if |sub| <= |s| { assert s[0..0 + |sub|] == s[..|sub|]; }
  }

  lemma FirstInTail(s: string, sub: string, i: nat)
    requires IsFirst(s, sub, i) && i > 0
    ensures s != "" && !(sub <= s) && IsFirst(s[1..], sub, i - 1)
  {
    assert |s| > 0;
    OccursShift(s, sub, i - 1);
    assert !OccursAt(s, sub, 0);
    forall j | 0 <= j < i - 1 ensures !OccursAt(s[1..], sub, j) {
      OccursShift(s, sub, j);
      assert !OccursAt(s, sub, j + 1);
    }
  }

  lemma PutBack(s: string, i: nat, n: nat, with: string)
    requires 0 < i && i + n <= |s|
    ensures [s[0]] + (s[1..][..i - 1] + with + s[1..][i - 1 + n..]) == s[..i] + with + s[i + n..]
  {
    assert s[1..][i - 1 + n..] == s[i + n..];
    assert s[..i] == [s[0]] + s[1..][..i - 1];
  }

  /** Only the first occurrence changes; what is before and after it stays. */
  lemma {:induction false} ReplaceFirstAt(s: string, sub: string, with: string, i: nat)
    requires IsFirst(s, sub, i)
    ensures ReplaceFirst(s, sub, with) == s[..i] + with + s[i + |sub|..]
  {
    if i == 0 {
      assert s[0..0 + |sub|] == s[..|sub|];
      assert s[..0] + with == with;
    } else {
      FirstInTail(s, sub, i);
      ReplaceFirstAt(s[1..], sub, with, i - 1);
      PutBack(s, i, |sub|, with);
    }
  }

  // ---------------------------------------------------------------- the edit as a transaction

  datatype Edit = Edit(path: Path, before: string, after: string)

  datatype Result = Result(ok: bool, applied: bool, restarted: bool, verified: bool, rolledBack: bool)

  const REFUSED := Result(false, false, false, false, false)

  /** A restart or a verification: whether it succeeds and what it leaves behind. */
  type Check = Tree -> (bool, Tree)

  function BackupPath(edit: Edit, backupDir: Option<Path>, stamp: string): Path
    requires edit.path != []
  {
    var dir := if backupDir.Some? then backupDir.value else Parent(edit.path) + [BACKUPS, "source-" + stamp];
    dir + [edit.path[|edit.path| - 1]]
  }

  predicate Applicable(t: Tree, edit: Edit) {
    edit.path != [] && edit.before != "" && FileAt(t, edit.path).Some?
        && Contains(FileAt(t, edit.path).value, edit.before)
  }

  /** The backup and the write. */
  function Written(t: Tree, edit: Edit, backup: Path): Outcome
    requires Applicable(t, edit) && backup != []
  {
    var mode := Perm(t[edit.path].mode);
    var made := MkdirAll(t, Parent(backup), MODE_0755);
    if !made.ok then made
    else
      var saved := CopyFile(made.tree, edit.path, backup, mode);
      if !saved.ok then saved
      else WriteFile(saved.tree, edit.path, ReplaceFirst(t[edit.path].content, edit.before, edit.after), mode)
  }

  /** rollbackSource. */
  function RolledBack(t: Tree, edit: Edit, backup: Path, mode: nat): Outcome {
    CopyFile(t, backup, edit.path, mode)
  }

  /** A failed check rolls back and ends the run. */
  function Checked(t: Tree, edit: Edit, backup: Path, mode: nat, check: Option<Check>): (bool, bool, Tree) {
    if check.None? then (true, false, t)
    else
      var r := check.value(t);
      if r.0 then (true, false, r.1)
      else (false, RolledBack(r.1, edit, backup, mode).ok, RolledBack(r.1, edit, backup, mode).tree)
  }

  function Applied(t: Tree, edit: Edit, backup: Path, restart: Option<Check>, verify: Option<Check>): (Result, Tree)
    requires Applicable(t, edit) && backup != []
  {
    var mode := Perm(t[edit.path].mode);
    var written := Written(t, edit, backup);
    if !written.ok then (REFUSED, written.tree)
    else
      var restarted := Checked(written.tree, edit, backup, mode, restart);
      if !restarted.0 then (Result(false, true, false, false, restarted.1), restarted.2)
      else
        var verified := Checked(restarted.2, edit, backup, mode, verify);
        (Result(verified.0, true, restart.Some?, verify.Some? && verified.0, verified.1), verified.2)
  }

  method ApplySourceEdit(disk: Disk, edit: Edit, backupDir: Option<Path>, stamp: string, restart: Option<Check>,
                         verify: Option<Check>)
    returns (result: Result)
    modifies disk
    ensures !Applicable(old(disk.tree), edit) ==> result == REFUSED && disk.tree == old(disk.tree)
    ensures Applicable(old(disk.tree), edit) ==>
              (result, disk.tree) == Applied(old(disk.tree), edit, BackupPath(edit, backupDir, stamp), restart, verify)
  {
    result := REFUSED;
    if edit.path == [] || edit.before == "" { return; }
    var raw := FileAt(disk.tree, edit.path);
    if raw.None? || !Contains(raw.value, edit.before) { return; }
    var mode := Perm(disk.tree[edit.path].mode);
    var backup := BackupPath(edit, backupDir, stamp);
    var made := MkdirAll(disk.tree, Parent(backup), MODE_0755);
    disk.tree := made.tree;
    if !made.ok { return; }
    var saved := CopyFile(disk.tree, edit.path, backup, mode);
    disk.tree := saved.tree;
    if !saved.ok { return; }
    var written := WriteFile(disk.tree, edit.path, ReplaceFirst(raw.value, edit.before, edit.after), mode);
    disk.tree := written.tree;
    if !written.ok { return; }
    result := result.(applied := true);
    if restart.Some? {
      var r := restart.value(disk.tree);
      disk.tree := r.1;
      if !r.0 {
        var back := RolledBack(disk.tree, edit, backup, mode);
        disk.tree := back.tree;
        return result.(rolledBack := back.ok);
      }
      result := result.(restarted := true);
    }
    if verify.Some? {
      var r := verify.value(disk.tree);
      disk.tree := r.1;
      if !r.0 {
        var back := RolledBack(disk.tree, edit, backup, mode);
        disk.tree := back.tree;
        return result.(rolledBack := back.ok);
      }
      result := result.(verified := true);
    }
    return result.(ok := true);
  }

  // ---------------------------------------------------------------- what it guarantees

  /** After the write: the file is patched, its backup holds the original text unless it is the
      same file, and no other file changed. */
  lemma WrittenSpec(t: Tree, edit: Edit, backup: Path)
    requires Closed(t) && Applicable(t, edit) && backup != [] && Written(t, edit, backup).ok
    ensures var w := Written(t, edit, backup).tree; var content := t[edit.path].content;
            && Closed(w)
            && FileAt(w, edit.path) == Some(ReplaceFirst(content, edit.before, edit.after))
            && (backup != edit.path ==> FileAt(w, backup) == Some(content))
            && forall q :: q != edit.path && q != backup ==> FileAt(w, q) == FileAt(t, q)
  {
    var mode := Perm(t[edit.path].mode);
    MkdirAllSpec(t, Parent(backup), MODE_0755);
    var made := MkdirAll(t, Parent(backup), MODE_0755).tree;
    assert forall q :: FileAt(made, q) == FileAt(t, q);
    PutSpec(made, backup, if edit.path == backup then "" else t[edit.path].content, mode);
  }

  /** The check left the backup alone. */
  ghost predicate KeepsBackup(check: Check, t: Tree, backup: Path) {
    Closed(check(t).1) && FileAt(check(t).1, backup) == FileAt(t, backup)
  }

  lemma RolledBackSpec(t: Tree, edit: Edit, backup: Path, mode: nat)
    requires Closed(t) && edit.path != [] && FileAt(t, backup).Some? && RolledBack(t, edit, backup, mode).ok
    ensures FileAt(RolledBack(t, edit, backup, mode).tree, edit.path)
         == Some(if backup == edit.path then "" else FileAt(t, backup).value)
  {
    PutSpec(t, edit.path, if backup == edit.path then "" else t[backup].content, mode);
  }

  /** When a restart fails and the copy back succeeds, the file has its original text again exactly
      when the backup is another file: copied onto itself, it ends up empty. */
  lemma FailedRestartRestores(t: Tree, edit: Edit, backup: Path, restart: Check, verify: Option<Check>)
    requires Closed(t) && Applicable(t, edit) && backup != [] && Written(t, edit, backup).ok
    requires !restart(Written(t, edit, backup).tree).0 && KeepsBackup(restart, Written(t, edit, backup).tree, backup)
    requires Applied(t, edit, backup, Some(restart), verify).0.rolledBack
    ensures FileAt(Applied(t, edit, backup, Some(restart), verify).1, edit.path) == FileAt(t, edit.path)
       <==> backup != edit.path
  {
    WrittenSpec(t, edit, backup);
    RolledBackSpec(restart(Written(t, edit, backup).tree).1, edit, backup, Perm(t[edit.path].mode));
    NotEmpty(t[edit.path].content, edit.before);
  }

  /** The same for a verification that fails after no restart or a successful one. */
  lemma FailedVerifyRestores(t: Tree, edit: Edit, backup: Path, restart: Option<Check>, verify: Check)
    requires Closed(t) && Applicable(t, edit) && backup != [] && Written(t, edit, backup).ok
    requires restart.Some? ==> restart.value(Written(t, edit, backup).tree).0
                               && KeepsBackup(restart.value, Written(t, edit, backup).tree, backup)
    requires var before := if restart.Some? then restart.value(Written(t, edit, backup).tree).1
               else Written(t, edit, backup).tree;
             !verify(before).0 && KeepsBackup(verify, before, backup)
    requires Applied(t, edit, backup, restart, Some(verify)).0.rolledBack
    ensures FileAt(Applied(t, edit, backup, restart, Some(verify)).1, edit.path) == FileAt(t, edit.path)
       <==> backup != edit.path
  {
    WrittenSpec(t, edit, backup);
    var before := if restart.Some? then restart.value(Written(t, edit, backup).tree).1
        else Written(t, edit, backup).tree;
    RolledBackSpec(verify(before).1, edit, backup, Perm(t[edit.path].mode));
    NotEmpty(t[edit.path].content, edit.before);
  }

  lemma NotEmpty(s: string, sub: string)
    requires sub != "" && Contains(s, sub)
    ensures s != ""
  {
  }

  /** The default backup is never the file itself. */
  lemma DefaultBackupElsewhere(edit: Edit, stamp: string)
    requires edit.path != []
    ensures BackupPath(edit, None, stamp) != edit.path
  {
    assert |BackupPath(edit, None, stamp)| == |edit.path| + 2;
  }

  /** Where the backup goes: into the directory given, or next to the file in one of this run's own. */
  lemma BackupPlaces(edit: Edit, dir: Path, stamp: string)
    requires edit.path != []
    ensures var n := |edit.path| - 1;
            && BackupPath(edit, Some(dir), stamp) == dir + [edit.path[n]]
            && BackupPath(edit, None, stamp) == edit.path[..n] + [BACKUPS, "source-" + stamp, edit.path[n]]
  {
  }

  /** The backup and the write work exactly when nothing is in the way of the backup: no file above it and
      no directory at it. */
  lemma WrittenWorks(t: Tree, edit: Edit, backup: Path)
    requires Closed(t) && Applicable(t, edit) && backup != []
    ensures Written(t, edit, backup).ok <==> !DirAt(t, backup) && forall q :: Above(q, backup) ==> FileAt(t, q).None?
  {
    var mode := Perm(t[edit.path].mode);
    MkdirAllSpec(t, Parent(backup), MODE_0755);
    AboveParent(backup);
    var made := MkdirAll(t, Parent(backup), MODE_0755);
    if made.ok {
      PutSpec(made.tree, backup, if edit.path == backup then "" else t[edit.path].content, mode);
    }
  }

  /** How an edit ends: with everything in place when the restart and the verification, as far as there are
      any, succeed one after the other; else with the backup copied back over what the failed one left. */
  lemma EndingsOfEdit(t: Tree, edit: Edit, backup: Path, restart: Option<Check>, verify: Option<Check>)
    requires Applicable(t, edit) && backup != []
    ensures var written, ending := Written(t, edit, backup), Applied(t, edit, backup, restart, verify);
            var restarted := if restart.Some? then restart.value(written.tree) else (true, written.tree);
            var verified := if verify.Some? then verify.value(restarted.1) else (true, restarted.1);
            && (!written.ok ==> ending == (Result(false, false, false, false, false), written.tree))
            && (written.ok && restarted.0 && verified.0 ==>
                  ending == (Result(true, true, restart.Some?, verify.Some?, false), verified.1))
            && (written.ok && !restarted.0 ==>
                  var back := CopyFile(restarted.1, backup, edit.path, Perm(t[edit.path].mode));
                  ending == (Result(false, true, false, false, back.ok), back.tree))
            && (written.ok && restarted.0 && !verified.0 ==>
                  var back := CopyFile(verified.1, backup, edit.path, Perm(t[edit.path].mode));
                  ending == (Result(false, true, restart.Some?, false, back.ok), back.tree))
  {
  }

  /** Copying back works exactly when the backup is still a file and nothing is in the way of the source. */
  lemma CopyBackWorks(t: Tree, edit: Edit, backup: Path, mode: nat)
    requires Closed(t) && edit.path != []
    ensures RolledBack(t, edit, backup, mode).ok <==>
              && FileAt(t, backup).Some? && !DirAt(t, edit.path)
              && forall q :: Above(q, edit.path) ==> FileAt(t, q).None?
  {
    if backup in t && t[backup].File? {
      PutSpec(t, edit.path, if backup == edit.path then "" else t[backup].content, mode);
    }
  }
}
