/** internal/agentfix: Run, from the staging copy to the apply. The agent works on a copy, and
    only a validated difference within the limit reaches the target. */
module AgentFixRun {
  import opened FileTree
  import opened AgentFix
  import opened AgentFixApply

  /** copyDir: everything that is not excluded, with the permission bits of the original. */
  function StagingCopy(t: Tree, m: Matcher): Tree {
    map p | p in t && !Skip(m, p) ::
      if p == [] then Dir(MODE_0755)
      else if t[p].Dir? then Dir(Perm(t[p].mode))
      else File(t[p].content, Perm(t[p].mode))
  }

  /** A difference is only ever due to the agent: the copy itself compares equal. */
  lemma CopyComparesEqual(t: Tree, m: Matcher)
    requires Closed(t)
    ensures Closed(StagingCopy(t, m)) && Snapshot(StagingCopy(t, m), m) == Snapshot(t, m)
  {
    var copy := StagingCopy(t, m);
    assert t[[]].Dir?;
    forall p | p in copy && p != [] ensures DirAt(copy, Parent(p)) {
      assert AtOrAbove(Parent(p), p);
      if Skip(m, Parent(p)) { SkipIsInherited(m, Parent(p), p); }
    }
  }

  /** The agent or the validations: whether they passed and the staging tree they leave. */
  type Worker = Tree -> (bool, Tree)

  datatype Ending = AgentFailed | NothingChanged | TooManyChanges | ValidationFailed | DryRun | ApplyFailed | Applied

  datatype Options = Options(maxChangedFiles: int, apply: bool)

  /** 0 means 50, and a negative number no limit. */
  predicate OverLimit(o: Options, n: nat) {
    var limit := if o.maxChangedFiles == 0 then 50 else o.maxChangedFiles;
    limit > 0 && n > limit
  }

  /** How far a run gets, given what the agent and the validations did. */
  function Gate(o: Options, agentOk: bool, changes: seq<Change>, validationOk: bool): (e: Ending)
    ensures e == Applied <==> agentOk && changes != [] && !OverLimit(o, |changes|) && validationOk && o.apply
  {
    if !agentOk then AgentFailed
    else if changes == [] then NothingChanged
    else if OverLimit(o, |changes|) then TooManyChanges
    else if !validationOk then ValidationFailed
    else if !o.apply then DryRun
    else Applied
  }

  ghost predicate KeepsTrees(w: Worker) {
    forall t {:trigger w(t)} :: Closed(t) ==> Closed(w(t).1)
  }

  /** Run. Up to the apply the target is not touched; what is applied is the exact difference the
      agent made, with the contents the validations left in the staging tree. */
  method Run(target: Disk, m: Matcher, agent: Worker, validate: Worker, o: Options, stamp: string,
             encode: seq<ManifestChange> -> string)
    returns (ending: Ending, changes: seq<Change>)
    requires Closed(target.tree) && KeepsTrees(agent)
    modifies target
    ensures var staged := agent(StagingCopy(old(target.tree), m));
            && (staged.0 ==> IsDiff(Snapshot(old(target.tree), m), Snapshot(staged.1, m), changes))
            && (ending == ApplyFailed || ending == Gate(o, staged.0, changes, validate(staged.1).0))
    ensures var staged := agent(StagingCopy(old(target.tree), m));
            var few := o.maxChangedFiles < 0 || |changes| <= (if o.maxChangedFiles == 0 then 50 else o.maxChangedFiles);
            && (ending.AgentFailed? <==> !staged.0)
            && (ending.NothingChanged? <==> staged.0 && changes == [])
            && (ending.TooManyChanges? <==> staged.0 && changes != [] && !few)
            && (ending.ValidationFailed? <==> staged.0 && changes != [] && few && !validate(staged.1).0)
            && (ending.DryRun? <==> staged.0 && changes != [] && few && validate(staged.1).0 && !o.apply)
            && (ending in {ApplyFailed, Applied} <==>
                staged.0 && changes != [] && few && validate(staged.1).0 && o.apply)
    ensures ending == ApplyFailed ==>
              Gate(o, agent(StagingCopy(old(target.tree), m)).0, changes,
                   validate(agent(StagingCopy(old(target.tree), m)).1).0) == Applied
    ensures ending !in {ApplyFailed, Applied} ==> target.tree == old(target.tree)
    ensures ending in {ApplyFailed, Applied} ==>
              Outcome(ending == Applied, target.tree)
              == ApplyAll(old(target.tree), validate(agent(StagingCopy(old(target.tree), m)).1).1, BackupDir(stamp),
                          changes, encode(ManifestFor(BackupDir(stamp), changes)))
  {
    changes := [];
    CopyComparesEqual(target.tree, m);
    var staged := agent(StagingCopy(target.tree, m));
    if !staged.0 { return AgentFailed, changes; }
    var before := SnapshotDir(target.tree, m);
    var after := SnapshotDir(staged.1, m);
    changes := DetectChanges(before, after);
    if changes == [] { return NothingChanged, changes; }
    if OverLimit(o, |changes|) { return TooManyChanges, changes; }
    var checked := validate(staged.1);
    if !checked.0 { return ValidationFailed, changes; }
    if !o.apply { return DryRun, changes; }
    var ok, _, _ := ApplyChanges(target, checked.1, changes, stamp, encode);
    ending := if ok then Applied else ApplyFailed;
  }

  /** A run that applied has brought the agent's work into the target, provided the validations
      did not touch the compared files of the staging tree. */
  lemma AppliedRunSynchronises(t0: Tree, m: Matcher, staged: Tree, checked: Tree, changes: seq<Change>, stamp: string,
                               text: string)
    requires Closed(t0) && Closed(checked) && BACKUPS in m.names && BackupsFit(t0, BackupDir(stamp))
    requires IsDiff(Snapshot(t0, m), Snapshot(staged, m), changes) && Snapshot(checked, m) == Snapshot(staged, m)
    requires ApplyAll(t0, checked, BackupDir(stamp), changes, text).ok
    ensures Snapshot(ApplyAll(t0, checked, BackupDir(stamp), changes, text).tree, m) == Snapshot(staged, m)
  {
    ApplySynchronises(t0, checked, m, stamp, changes, text);
  }
}
