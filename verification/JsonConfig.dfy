/** The key path access of internal/runtime/v2/config_remediation.go on a decoded JSON document. */
module JsonPath {
  import opened Wrappers
  import opened Text

  /** Other is any value that is neither a string nor an object. */
  datatype Json = Str(text: string) | Obj(fields: map<string, Json>) | Other(text: string)

  /** The value that a list of keys leads to. */
  function At(v: Json, keys: seq<string>): Option<Json> {
    if keys == [] then Some(v)
    else if keys[0] == "" || !v.Obj? || keys[0] !in v.fields then None
    else At(v.fields[keys[0]], keys[1..])
  }

  /** Replace the value there. */
  function SetAt(v: Json, keys: seq<string>, x: Json): Json
    requires At(v, keys).Some?
  {
    if keys == [] then x
    else Obj(v.fields[keys[0] := SetAt(v.fields[keys[0]], keys[1..], x)])
  }

  /** The trimmed segments of a key path. */
  function Keys(keyPath: string): (keys: seq<string>)
    ensures keys != []
  {
    var parts := Split(keyPath, '.');
    seq(|parts|, i requires 0 <= i < |parts| => Trim(parts[i]))
  }

  /** The path is cut at its dots: keys without dots and outer blanks are got back from their path. */
  lemma KeysOfPath(keys: seq<string>)
    requires keys != [] && forall i :: 0 <= i < |keys| ==> '.' !in keys[i] && Trim(keys[i]) == keys[i]
    ensures Keys(Join(keys, '.')) == keys
  {
    SplitJoin(keys, '.');
  }

  /** What a read of a path finds: a string that is there and not empty. */
  function Read(v: Json, keys: seq<string>): Option<string> {
    var found := At(v, keys);
    if found.Some? && found.value.Str? && found.value.text != "" then Some(found.value.text) else None
  }

  predicate CanSet(v: Json, keys: seq<string>) {
    At(v, keys).Some? && At(v, keys).value.Str?
  }

  lemma {:induction false} AtOn(v: Json, keys: seq<string>, i: nat)
    requires i < |keys|
    ensures At(v, keys[..i + 1]) == match At(v, keys[..i])
              case None => None
              case Some(x) => if keys[i] == "" || !x.Obj? || keys[i] !in x.fields then None else Some(x.fields[keys[i]])
  {
    if i == 0 {
      assert keys[..1][1..] == [] && keys[..0] == [];
    } else if v.Obj? && keys[0] in v.fields {
      AtOn(v.fields[keys[0]], keys[1..], i - 1);
      assert keys[..i + 1][1..] == keys[1..][..i] && keys[..i][1..] == keys[1..][..i - 1];
    }
  }

  lemma {:induction false} AtStops(v: Json, keys: seq<string>, i: nat)
    requires i <= |keys| && At(v, keys[..i]).None?
    ensures At(v, keys).None?
    decreases |keys| - i
  {
    if i == |keys| {
      assert keys[..i] == keys;
    } else {
      AtOn(v, keys, i);
      AtStops(v, keys, i + 1);
    }
  }

  /** getJSONString. */
  method GetJSONString(document: Json, keyPath: string) returns (value: Option<string>)
    requires document.Obj?
    ensures value == Read(document, Keys(keyPath))
  {
    var keys, current := Keys(keyPath), document;
    for i := 0 to |keys|
      invariant At(document, keys[..i]) == Some(current)
    {
      AtOn(document, keys, i);
      if keys[i] == "" || !current.Obj? || keys[i] !in current.fields {
        AtStops(document, keys, i + 1);
        return None;
      }
      current := current.fields[keys[i]];
    }
    assert keys[..|keys|] == keys;
    if !current.Str? || current.text == "" { return None; }
    return Some(current.text);
  }

  class Document {
    var root: Json

    constructor (v: Json)
      ensures root == v
    {
      root := v;
    }

    /** setJSONString. */
    method SetJSONString(keyPath: string, replacement: string) returns (ok: bool)
      requires root.Obj?
      modifies this
      ensures ok <==> CanSet(old(root), Keys(keyPath))
      ensures ok ==> root == SetAt(old(root), Keys(keyPath), Str(replacement))
      ensures !ok ==> root == old(root)
    {
      var keys, current := Keys(keyPath), root;
      for i := 0 to |keys| - 1
        invariant At(root, keys[..i]) == Some(current) && current.Obj? && root == old(root)
      {
        AtOn(root, keys, i);
        if keys[i] == "" || keys[i] !in current.fields {
          AtStops(root, keys, i + 1);
          return false;
        }
        if !current.fields[keys[i]].Obj? {
          NoWayThrough(root, keys, i + 1);
          return false;
        }
        current := current.fields[keys[i]];
      }
      AtOn(root, keys, |keys| - 1);
      assert keys[..|keys|] == keys;
      var last := keys[|keys| - 1];
      if last == "" || last !in current.fields || !current.fields[last].Str? { return false; }
      root := SetAt(root, keys, Str(replacement));
      ok := true;
    }
  }

  lemma NoWayThrough(v: Json, keys: seq<string>, i: nat)
    requires i < |keys| && At(v, keys[..i]).Some? && !At(v, keys[..i]).value.Obj?
    ensures At(v, keys).None?
  {
    AtOn(v, keys, i);
    AtStops(v, keys, i + 1);
  }

  // ---------------------------------------------------------------- lens laws

  /** After a set the path reads the replacement, unless that is empty. */
  lemma {:induction false} SetThenAt(v: Json, keys: seq<string>, x: Json)
    requires At(v, keys).Some?
    ensures At(SetAt(v, keys, x), keys) == Some(x)
  {
    if keys != [] { SetThenAt(v.fields[keys[0]], keys[1..], x); }
  }

  lemma GetAfterSet(v: Json, keys: seq<string>, replacement: string)
    requires CanSet(v, keys)
    ensures Read(SetAt(v, keys, Str(replacement)), keys) == if replacement == "" then None else Some(replacement)
  {
    SetThenAt(v, keys, Str(replacement));
  }

  lemma ConsPrefix(a: seq<string>, b: seq<string>)
    requires a != [] && b != [] && a[0] == b[0]
    ensures a <= b <==> a[1..] <= b[1..]
  {
    assert a == [a[0]] + a[1..] && b == [b[0]] + b[1..];
  }

  /** Every path that is not the set path or a prefix of it leads where it led before. */
  lemma {:induction false} SetElsewhere(v: Json, keys: seq<string>, x: Json, other: seq<string>)
    requires CanSet(v, keys) && x.Str? && !(other <= keys)
    ensures At(SetAt(v, keys, x), other) == At(v, other)
  {
    if keys != [] && keys[0] == other[0] {
      ConsPrefix(other, keys);
      SetElsewhere(v.fields[keys[0]], keys[1..], x, other[1..]);
    }
  }

  /** A proper prefix of the set path leads to an object before and after. */
  lemma {:induction false} PrefixIsObject(v: Json, keys: seq<string>, x: Json, other: seq<string>)
    requires CanSet(v, keys) && other < keys
    ensures At(v, other).Some? && At(v, other).value.Obj?
    ensures At(SetAt(v, keys, x), other).Some? && At(SetAt(v, keys, x), other).value.Obj?
  {
    if other != [] { PrefixIsObject(v.fields[keys[0]], keys[1..], x, other[1..]); }
  }

  /** No other path reads differently after a set. */
  lemma SetChangesOneRead(v: Json, keys: seq<string>, replacement: string, other: seq<string>)
    requires CanSet(v, keys) && other != keys
    ensures Read(SetAt(v, keys, Str(replacement)), other) == Read(v, other)
  {
    if other <= keys {
      assert other < keys;
      PrefixIsObject(v, keys, Str(replacement), other);
    } else {
      SetElsewhere(v, keys, Str(replacement), other);
    }
  }

  /** Two sets equal the last one, and setting what is there changes nothing. */
  lemma {:induction false} SetTwice(v: Json, keys: seq<string>, x: Json, y: Json)
    requires At(v, keys).Some?
    ensures At(SetAt(v, keys, x), keys).Some? && SetAt(SetAt(v, keys, x), keys, y) == SetAt(v, keys, y)
    ensures SetAt(v, keys, At(v, keys).value) == v
  {
    SetThenAt(v, keys, x);
    if keys != [] {
      SetTwice(v.fields[keys[0]], keys[1..], x, y);
      var f := v.fields;
      assert f[keys[0] := SetAt(f[keys[0]], keys[1..], x)][keys[0] := SetAt(f[keys[0]], keys[1..], y)]
          == f[keys[0] := SetAt(f[keys[0]], keys[1..], y)];
      assert f[keys[0] := f[keys[0]]] == f;
    }
  }

  /** A path that reads a string can be set, so that Run never meets a refusal after its backup. */
  lemma ReadableCanBeSet(v: Json, keyPath: string)
    requires Read(v, Keys(keyPath)).Some?
    ensures CanSet(v, Keys(keyPath))
  {
  }
}

/** Run of internal/runtime/v2/config_remediation.go from the moment the descriptor is complete:
    back up, patch, verify, restore, and move the plan's row through the workflow on the way. */
module ConfigRemediation {
  import opened Wrappers
  import opened FileTree
  import opened Domain
  import opened JsonPath
  import Workflow

  /** encoding/json into and out of an object; the text "null" reads as an object without fields. */
  datatype Codec = Codec(decode: string -> Option<Json>, encode: Json -> string)

  /** A hook or a probe: whether it succeeds and what it leaves behind. */
  type Check = Tree -> (bool, Tree)

  /** The row of the plan and how its moves are signed and announced. */
  datatype PlanRow = PlanRow(tenant: string, id: string, actor: string, suppressOutbox: bool)

  /** Without a workflow service `plan` is None. `broken` says which statements fail, for reasons
      outside the model, in the transaction that moves the row to a status; the last three are the
      validations of the documents built for the start, for a failed and for a verified run. */
  datatype Options = Options(config: Path, keyPath: string, replacement: string, stamp: string, codec: Codec,
                             hook: Option<Check>, verify: Check,
                             plan: Option<PlanRow>, broken: Status -> set<Workflow.Statement>,
                             startValid: bool, failureValid: bool, resultValid: bool)

  datatype Ending = ReadFailed | Blocked | StartInvalid | StartNotRecorded | BackupFailed | WriteFailed | HookFailed
                  | FailureInvalid | FailedRolledBack | FailedRollbackFailed
                  | SuccessNotRecorded | ResultInvalid | Done

  datatype End = End(ending: Ending, tree: Tree, store: Workflow.Store)

  // ---------------------------------------------------------------- the plan's row

  function KeyOf(plan: PlanRow): Workflow.Key {
    Workflow.Key(Workflow.Plan, plan.id)
  }

  function LinkMove(plan: PlanRow, from: Status, to: Status): Workflow.Move {
    Workflow.Move(Workflow.Remediations, plan.tenant, KeyOf(plan), from, to, "",
                  if plan.actor == "" then "ai-logfixer-v2" else plan.actor, plan.suppressOutbox)
  }

  /** recordRemediationPlanTransition: nothing to do without a workflow service. */
  function Recorded(s: Workflow.Store, o: Options, from: Status, to: Status): (bool, Workflow.Store) {
    if o.plan.None? then (true, s)
    else
      var m := LinkMove(o.plan.value, from, to);
      if Workflow.Succeeds(s, m) && Workflow.Sound(m, o.broken(to)) then (true, Workflow.Moved(s, m)) else (false, s)
  }

  method Record(db: Workflow.Database, o: Options, from: Status, to: Status) returns (ok: bool)
    modifies db
    ensures (ok, db.store) == Recorded(old(db.store), o, from, to)
  {
    if o.plan.None? { return true; }
    ok := Workflow.Perform(db, LinkMove(o.plan.value, from, to), o.broken(to));
  }

  /** recordRemediationPlanFailure: the run fails anyway, whether or not this is recorded. */
  function Failing(s: Workflow.Store, o: Options): Workflow.Store {
    Recorded(s, o, Running, Failed).1
  }

  // ---------------------------------------------------------------- the file

  function BackupPath(o: Options): Path
    requires o.config != []
  {
    Parent(o.config) + ["backups", "app-" + o.stamp + ".json"]
  }

  /** The document of the configuration file. */
  function Decoded(t: Tree, o: Options): Option<Json> {
    var raw := FileAt(t, o.config);
    if raw.None? then None
    else
      var document := o.codec.decode(raw.value);
      if document.Some? && document.value.Obj? then document else None
  }

  /** The same when the key path reads a string in it. */
  function Readable(t: Tree, o: Options): Option<Json> {
    var document := Decoded(t, o);
    if document.Some? && Read(document.value, Keys(o.keyPath)).Some? then document else None
  }

  /** backupConfig. */
  function BackedUp(t: Tree, o: Options): Outcome
    requires o.config != [] && FileAt(t, o.config).Some?
  {
    var made := MkdirAll(t, Parent(BackupPath(o)), MODE_0755);
    if made.ok then WriteFile(made.tree, BackupPath(o), t[o.config].content, MODE_0644) else made
  }

  function PatchedText(document: Json, o: Options): string
    requires Read(document, Keys(o.keyPath)).Some?
  {
    o.codec.encode(SetAt(document, Keys(o.keyPath), Str(o.replacement)))
  }

  /** The backup, then the patched document over the original. */
  function Written(t: Tree, o: Options): Outcome
    requires o.config != [] && Readable(t, o).Some?
  {
    WriteFile(BackedUp(t, o).tree, o.config, PatchedText(Readable(t, o).value, o), MODE_0644)
  }

  /** restoreBackup. */
  function Restored(t: Tree, o: Options): Outcome
    requires o.config != []
  {
    var raw := FileAt(t, BackupPath(o));
    if raw.None? then Outcome(false, t) else WriteFile(t, o.config, raw.value, MODE_0644)
  }

  // ---------------------------------------------------------------- the run

  function Hooked(t: Tree, o: Options): (bool, Tree) {
    if o.hook.Some? then o.hook.value(t) else (true, t)
  }

  /** After a verification that failed. */
  function VerifyFailed(t: Tree, s: Workflow.Store, o: Options): End
    requires o.config != []
  {
    var back := Restored(t, o);
    if !o.failureValid then End(FailureInvalid, back.tree, s)
    else End(if back.ok then FailedRolledBack else FailedRollbackFailed, back.tree, Failing(s, o))
  }

  /** From the patched file on. */
  function Finished(t: Tree, s: Workflow.Store, o: Options): End
    requires o.config != []
  {
    var hooked := Hooked(t, o);
    if !hooked.0 then End(HookFailed, Restored(hooked.1, o).tree, Failing(s, o))
    else
      var verified := o.verify(hooked.1);
      if !verified.0 then VerifyFailed(verified.1, s, o)
      else
        var done := Recorded(s, o, Running, Succeeded);
        End(if !done.0 then SuccessNotRecorded else if o.resultValid then Done else ResultInvalid, verified.1, done.1)
  }

  /** From the recorded start on. */
  function Started(t: Tree, s: Workflow.Store, o: Options): End
    requires o.config != [] && Readable(t, o).Some?
  {
    if !BackedUp(t, o).ok then End(BackupFailed, BackedUp(t, o).tree, Failing(s, o))
    else if !Written(t, o).ok then End(WriteFailed, Written(t, o).tree, Failing(s, o))
    else Finished(Written(t, o).tree, s, o)
  }

  function Executed(t: Tree, s: Workflow.Store, o: Options): End
    requires o.config != []
  {
    if Decoded(t, o).None? then End(ReadFailed, t, s)
    else if Readable(t, o).None? then End(Blocked, t, s)
    else if !o.startValid then End(StartInvalid, t, s)
    else
      var start := Recorded(s, o, Approved, Running);
      if start.0 then Started(t, start.1, o) else End(StartNotRecorded, t, s)
  }

  /** Run after the incident has been matched to the descriptor. */
  method Run(disk: Disk, db: Workflow.Database, o: Options) returns (ending: Ending)
    requires o.config != []
    modifies disk, db
    ensures End(ending, disk.tree, db.store) == Executed(old(disk.tree), old(db.store), o)
  {
    var raw := FileAt(disk.tree, o.config);
    if raw.None? { return ReadFailed; }
    var decoded := o.codec.decode(raw.value);
    if decoded.None? || !decoded.value.Obj? { return ReadFailed; }
    var before := GetJSONString(decoded.value, o.keyPath);
    if before.None? { return Blocked; }
    if !o.startValid { return StartInvalid; }
    var started := Record(db, o, Approved, Running);
    if !started { return StartNotRecorded; }
    var saved := BackedUp(disk.tree, o);
    disk.tree := saved.tree;
    if !saved.ok {
      var _ := Record(db, o, Running, Failed);
      return BackupFailed;
    }
    var document := new Document(decoded.value);
    var patched := document.SetJSONString(o.keyPath, o.replacement);
    ReadableCanBeSet(decoded.value, o.keyPath);
    var written := WriteFile(disk.tree, o.config, o.codec.encode(document.root), MODE_0644);
    disk.tree := written.tree;
    if !written.ok {
      var _ := Record(db, o, Running, Failed);
      return WriteFailed;
    }
    ending := Finish(disk, db, o);
  }

  method Finish(disk: Disk, db: Workflow.Database, o: Options) returns (ending: Ending)
    requires o.config != []
    modifies disk, db
    ensures End(ending, disk.tree, db.store) == Finished(old(disk.tree), old(db.store), o)
  {
    if o.hook.Some? {
      var hooked := o.hook.value(disk.tree);
      disk.tree := hooked.1;
      if !hooked.0 {
        disk.tree := Restored(disk.tree, o).tree;
        var _ := Record(db, o, Running, Failed);
        return HookFailed;
      }
    }
    var verified := o.verify(disk.tree);
    disk.tree := verified.1;
    if !verified.0 {
      var back := Restored(disk.tree, o);
      disk.tree := back.tree;
      if !o.failureValid { return FailureInvalid; }
      var _ := Record(db, o, Running, Failed);
      return if back.ok then FailedRolledBack else FailedRollbackFailed;
    }
    var done := Record(db, o, Running, Succeeded);
    if !done { return SuccessNotRecorded; }
    return if o.resultValid then Done else ResultInvalid;
  }

  // ---------------------------------------------------------------- what the tables show of a run

  function LinksOf(plan: PlanRow, trail: seq<Status>): seq<Workflow.AuditEvent> {
    if |trail| < 2 then []
    else
      LinksOf(plan, trail[..|trail| - 1])
      + [Workflow.AuditOf(LinkMove(plan, trail[|trail| - 2], trail[|trail| - 1]))]
  }

  function AnnouncedOf(plan: PlanRow, trail: seq<Status>): seq<Workflow.OutboxEvent> {
    if |trail| < 2 || plan.suppressOutbox then []
    else
      AnnouncedOf(plan, trail[..|trail| - 1])
      + [Workflow.EventOf(LinkMove(plan, trail[|trail| - 2], trail[|trail| - 1]))]
  }

  function RowAlong(row: Workflow.Row, trail: seq<Status>): Workflow.Row
    requires trail != []
  {
    row.(status := trail[|trail| - 1], lockVersion := row.lockVersion + |trail| - 1)
  }

  /** The plan's row went along a trail of statuses and nothing else happened to the tables: the
      audit has its links, the outbox their announcements, the row the last status and one more in
      its lock version for each link. */
  ghost predicate Walked(s: Workflow.Store, plan: PlanRow, trail: seq<Status>, after: Workflow.Store)
    requires trail != []
  {
    && after.audit == s.audit + LinksOf(plan, trail)
    && after.outbox == s.outbox + AnnouncedOf(plan, trail)
    && (|trail| == 1 ==> after.rows == s.rows)
    && (|trail| > 1 ==>
          && KeyOf(plan) in s.rows
          && s.rows[KeyOf(plan)].status == trail[0] && s.rows[KeyOf(plan)].tenant == plan.tenant
          && after.rows == s.rows[KeyOf(plan) := RowAlong(s.rows[KeyOf(plan)], trail)])
  }

  lemma LinksSnoc(plan: PlanRow, trail: seq<Status>, to: Status)
    requires trail != []
    ensures var m := LinkMove(plan, trail[|trail| - 1], to);
            && LinksOf(plan, trail + [to]) == LinksOf(plan, trail) + [Workflow.AuditOf(m)]
            && AnnouncedOf(plan, trail + [to]) == AnnouncedOf(plan, trail) + if m.suppressOutbox then []
                 else [Workflow.EventOf(m)]
  {
    assert (trail + [to])[..|trail|] == trail;
    if plan.suppressOutbox { assert AnnouncedOf(plan, trail) == []; }
  }

  lemma MovedWalksOn(s: Workflow.Store, plan: PlanRow, trail: seq<Status>, now: Workflow.Store, to: Status)
    requires trail != [] && Walked(s, plan, trail, now)
    requires Workflow.Matches(now.rows, LinkMove(plan, trail[|trail| - 1], to))
    ensures Walked(s, plan, trail + [to], Workflow.Moved(now, LinkMove(plan, trail[|trail| - 1], to)))
  {
    LinksSnoc(plan, trail, to);
    var after := Workflow.Moved(now, LinkMove(plan, trail[|trail| - 1], to));
    assert after.audit == s.audit + LinksOf(plan, trail + [to]);
    assert after.outbox == s.outbox + AnnouncedOf(plan, trail + [to]);
    if |trail| > 1 { assert now.rows[KeyOf(plan)].status == trail[|trail| - 1]; }
  }

  /** One more recorded move makes the trail one longer; a refused one leaves it. */
  lemma WalksOn(s: Workflow.Store, o: Options, trail: seq<Status>, now: Workflow.Store, to: Status)
    requires o.plan.Some? && trail != [] && Walked(s, o.plan.value, trail, now)
    ensures var (ok, after) := Recorded(now, o, trail[|trail| - 1], to);
            && (ok ==> Walked(s, o.plan.value, trail + [to], after))
            && (!ok ==> after == now)
  {
    if Recorded(now, o, trail[|trail| - 1], to).0 { MovedWalksOn(s, o.plan.value, trail, now, to); }
  }

  /** How a run ends after its start was recorded, and the statuses its row then went through. */
  predicate EndsWith(ending: Ending, trail: seq<Status>) {
    match ending
    case ReadFailed => trail == [Approved]
    case Blocked => trail == [Approved]
    case StartInvalid => trail == [Approved]
    case StartNotRecorded => trail == [Approved]
    case FailureInvalid => trail == [Approved, Running]
    case SuccessNotRecorded => trail == [Approved, Running]
    case ResultInvalid => trail == [Approved, Running, Succeeded]
    case Done => trail == [Approved, Running, Succeeded]
    case _ => trail == [Approved, Running] || trail == [Approved, Running, Failed]
  }

  lemma FailureWalks(s: Workflow.Store, o: Options, now: Workflow.Store) returns (trail: seq<Status>)
    requires o.plan.Some? && Walked(s, o.plan.value, [Approved, Running], now)
    ensures trail == [Approved, Running] || trail == [Approved, Running, Failed]
    ensures Walked(s, o.plan.value, trail, Failing(now, o))
  {
    WalksOn(s, o, [Approved, Running], now, Failed);
    assert [Approved, Running] + [Failed] == [Approved, Running, Failed];
    trail := if Recorded(now, o, Running, Failed).0 then [Approved, Running, Failed] else [Approved, Running];
  }

  predicate Fails(ending: Ending) {
    ending.BackupFailed? || ending.WriteFailed? || ending.HookFailed? || ending.FailedRolledBack?
    || ending.FailedRollbackFailed?
  }

  /** Only the last move of a run touches the tables once it has started. */
  ghost predicate LastMove(now: Workflow.Store, o: Options, e: End) {
    if Fails(e.ending) then e.store == Failing(now, o)
    else if e.ending.FailureInvalid? then e.store == now
    else && (e.ending.Done? || e.ending.ResultInvalid? || e.ending.SuccessNotRecorded?)
         && Recorded(now, o, Running, Succeeded) == (!e.ending.SuccessNotRecorded?, e.store)
  }

  lemma FinishedStore(t: Tree, now: Workflow.Store, o: Options)
    requires o.config != []
    ensures LastMove(now, o, Finished(t, now, o))
  {
  }

  lemma StartedStore(t: Tree, now: Workflow.Store, o: Options)
    requires o.config != [] && Readable(t, o).Some?
    ensures LastMove(now, o, Started(t, now, o))
  {
    if BackedUp(t, o).ok && Written(t, o).ok { FinishedStore(Written(t, o).tree, now, o); }
  }

  lemma SuccessWalks(s: Workflow.Store, o: Options, now: Workflow.Store) returns (trail: seq<Status>)
    requires o.plan.Some? && Walked(s, o.plan.value, [Approved, Running], now)
    ensures trail == if Recorded(now, o, Running, Succeeded).0 then [Approved, Running, Succeeded]
              else [Approved, Running]
    ensures Walked(s, o.plan.value, trail, Recorded(now, o, Running, Succeeded).1)
  {
    WalksOn(s, o, [Approved, Running], now, Succeeded);
    assert [Approved, Running] + [Succeeded] == [Approved, Running, Succeeded];
    trail := if Recorded(now, o, Running, Succeeded).0 then [Approved, Running, Succeeded] else [Approved, Running];
  }

  lemma NoLinks(s: Workflow.Store)
    ensures forall plan :: Walked(s, plan, [Approved], s)
  {
    assert s.audit + [] == s.audit && s.outbox + [] == s.outbox;
  }

  lemma StartWalks(s: Workflow.Store, o: Options)
    requires o.plan.Some? && Recorded(s, o, Approved, Running).0
    ensures Walked(s, o.plan.value, [Approved, Running], Recorded(s, o, Approved, Running).1)
  {
    NoLinks(s);
    WalksOn(s, o, [Approved], s, Running);
    assert [Approved] + [Running] == [Approved, Running];
  }

  lemma HowRunsStart(t: Tree, s: Workflow.Store, o: Options)
    requires o.config != []
    ensures var e, start := Executed(t, s, o), Recorded(s, o, Approved, Running);
            && (Readable(t, o).None? || !o.startValid ==>
                  e.ending in {ReadFailed, Blocked, StartInvalid} && e == End(e.ending, t, s))
            && (Readable(t, o).Some? && o.startValid ==>
                  e == if start.0 then Started(t, start.1, o) else End(StartNotRecorded, t, s))
  {
  }

  lemma StartedWalks(s: Workflow.Store, o: Options, e: End) returns (trail: seq<Status>)
    requires o.plan.Some? && Recorded(s, o, Approved, Running).0
    requires LastMove(Recorded(s, o, Approved, Running).1, o, e)
    ensures trail != [] && EndsWith(e.ending, trail) && Walked(s, o.plan.value, trail, e.store)
  {
    var now := Recorded(s, o, Approved, Running).1;
    StartWalks(s, o);
    if Fails(e.ending) {
      trail := FailureWalks(s, o, now);
    } else if e.ending.FailureInvalid? {
      trail := [Approved, Running];
    } else {
      trail := SuccessWalks(s, o, now);
    }
  }

  /** Whatever fails: the tables show an initial part of Approved, Running, then Succeeded or Failed for
      the plan's row, link by link, and nothing for any other row. Succeeded is there exactly when
      the run was recorded as one, and a run whose start was refused has changed neither file nor tables. */
  lemma MovesAreRecorded(t: Tree, s: Workflow.Store, o: Options) returns (trail: seq<Status>)
    requires o.config != []
    ensures var e := Executed(t, s, o);
            && trail != []
            && (o.plan.Some? ==> EndsWith(e.ending, trail) && Walked(s, o.plan.value, trail, e.store))
            && (o.plan.None? ==> e.store == s && e.ending !in {StartNotRecorded, SuccessNotRecorded})
            && (e.ending in {ReadFailed, Blocked, StartInvalid, StartNotRecorded} ==> e.tree == t && e.store == s)
  {
    HowRunsStart(t, s, o);
    trail := [Approved];
    if o.plan.Some? { trail := ServiceMoves(t, s, o); }
    if Readable(t, o).Some? && o.startValid { StartedStore(t, Recorded(s, o, Approved, Running).1, o); }
  }

  lemma ServiceMoves(t: Tree, s: Workflow.Store, o: Options) returns (trail: seq<Status>)
    requires o.config != [] && o.plan.Some?
    ensures var e := Executed(t, s, o);
            trail != [] && EndsWith(e.ending, trail) && Walked(s, o.plan.value, trail, e.store)
  {
    HowRunsStart(t, s, o);
    trail := [Approved];
    NoLinks(s);
    if Readable(t, o).Some? && o.startValid && Recorded(s, o, Approved, Running).0 {
      StartedStore(t, Recorded(s, o, Approved, Running).1, o);
      trail := StartedWalks(s, o, Executed(t, s, o));
    }
  }

  // ---------------------------------------------------------------- how a run ends, and in whose name

  /** The hook and then the probe decide how a patched file ends. */
  ghost predicate Judged(t: Tree, o: Options, e: End) {
    var passed := o.hook.None? || o.hook.value(t).0;
    var left := if o.hook.Some? then o.hook.value(t).1 else t;
    && (e.ending.HookFailed? <==> !passed)
    && (e.ending in {Done, ResultInvalid, SuccessNotRecorded} <==> passed && o.verify(left).0)
    && (e.ending in {Done, ResultInvalid, SuccessNotRecorded} ==> e.tree == o.verify(left).1)
    && (e.ending.FailureInvalid? <==> passed && !o.verify(left).0 && !o.failureValid)
    && (e.ending in {FailedRolledBack, FailedRollbackFailed} <==> passed && !o.verify(left).0 && o.failureValid)
    && (e.ending.Done? ==> o.resultValid) && (e.ending.ResultInvalid? ==> !o.resultValid)
  }

  /** Every ending but the recording of the moves, from the file, the validations, hook and probe. A file
      that cannot be backed up or written is the only other reason to fail after the start. */
  lemma HowRunsEnd(t: Tree, s: Workflow.Store, o: Options)
    requires o.config != []
    ensures var e, raw := Executed(t, s, o), FileAt(t, o.config);
            var document := if raw.Some? then o.codec.decode(raw.value) else None;
            if document.None? || !document.value.Obj? then e.ending.ReadFailed?
            else if Read(document.value, Keys(o.keyPath)).None? then e.ending.Blocked?
            else if !o.startValid then e.ending.StartInvalid?
            else && e.ending !in {ReadFailed, Blocked, StartInvalid}
                 && (BackedUp(t, o).ok && Written(t, o).ok && !e.ending.StartNotRecorded? ==>
                       Judged(Written(t, o).tree, o, e))
                 && (e.ending in {BackupFailed, WriteFailed} ==> !BackedUp(t, o).ok || !Written(t, o).ok)
  {
    HowRunsStart(t, s, o);
    if Readable(t, o).Some? {
      HowChecksEnd(Written(t, o).tree, Recorded(s, o, Approved, Running).1, o);
    }
  }

  lemma HowChecksEnd(t: Tree, s: Workflow.Store, o: Options)
    requires o.config != []
    ensures Judged(t, o, Finished(t, s, o))
    ensures Finished(t, s, o).ending in {HookFailed, FailureInvalid, FailedRolledBack, FailedRollbackFailed,
                                         SuccessNotRecorded, ResultInvalid, Done}
  {
  }

  /** The events of a run are the links of its trail, for the row of the plan and in the name of its
      actor, or of the engine when no actor is given. */
  lemma {:induction false} LinksAreSigned(plan: PlanRow, trail: seq<Status>)
    ensures var links := LinksOf(plan, trail);
            && |links| == (if trail == [] then 0 else |trail| - 1)
            && forall i :: 0 <= i < |links| ==>
                links[i] == Workflow.AuditEvent(plan.tenant, Workflow.Key(Workflow.Plan, plan.id),
                                                if |plan.actor| > 0 then plan.actor else "ai-logfixer-v2",
                                                trail[i], trail[i + 1])
  {
    if |trail| >= 2 { LinksAreSigned(plan, trail[..|trail| - 1]); }
  }

  // ---------------------------------------------------------------- in a store that moves have built

  /** No statement fails for reasons outside the model. */
  ghost predicate AllSound(o: Options) {
    forall to :: o.broken(to) == {}
  }

  /** The plan is there with this status and belongs to this tenant. */
  predicate StandsAt(s: Workflow.Store, plan: PlanRow, status: Status) {
    && plan.tenant != "" && plan.id != "" && KeyOf(plan) in s.rows
    && s.rows[KeyOf(plan)].tenant == plan.tenant && s.rows[KeyOf(plan)].status == status
  }

  ghost predicate Built(s: Workflow.Store) {
    exists past :: s == Workflow.Run(past)
  }

  /** A move out of the status the row has is never stopped. */
  lemma NextIsRecorded(s: Workflow.Store, o: Options, from: Status, to: Status)
    requires Built(s) && o.plan.Some? && AllSound(o) && StandsAt(s, o.plan.value, from)
    requires from != to && CanMoveRemediation(from, to)
    ensures Recorded(s, o, from, to).0
    ensures Built(Recorded(s, o, from, to).1) && StandsAt(Recorded(s, o, from, to).1, o.plan.value, to)
  {
    var past :| s == Workflow.Run(past);
    var m := LinkMove(o.plan.value, from, to);
    assert |Workflow.KindText(Workflow.Plan)| == 16;
    Workflow.RemediationNeverBlocked(past, m);
    Workflow.RunSnoc(past, Workflow.Try(m));
  }

  /** The status a started run leaves its plan with. */
  function FinalStatus(ending: Ending): Status {
    match ending
    case Done => Succeeded
    case ResultInvalid => Succeeded
    case FailureInvalid => Running
    case _ => Failed
  }

  /** Moves have built the store, and the plan has this status in it. */
  ghost predicate LeftAt(s: Workflow.Store, plan: PlanRow, status: Status) {
    Built(s) && StandsAt(s, plan, status)
  }

  lemma FailureIsRecorded(s: Workflow.Store, o: Options)
    requires o.plan.Some? && AllSound(o) && LeftAt(s, o.plan.value, Running)
    ensures LeftAt(Failing(s, o), o.plan.value, Failed)
  {
    NextIsRecorded(s, o, Running, Failed);
  }

  lemma SuccessIsRecorded(s: Workflow.Store, o: Options, recorded: bool, after: Workflow.Store)
    requires o.plan.Some? && AllSound(o) && LeftAt(s, o.plan.value, Running)
    requires Recorded(s, o, Running, Succeeded) == (recorded, after)
    ensures recorded && LeftAt(after, o.plan.value, Succeeded)
  {
    NextIsRecorded(s, o, Running, Succeeded);
  }

  /** The last move of a run whose plan is running. */
  lemma EndIsRecorded(s: Workflow.Store, o: Options, e: End)
    requires o.plan.Some? && AllSound(o) && LeftAt(s, o.plan.value, Running) && LastMove(s, o, e)
    ensures Fails(e.ending) || e.ending.FailureInvalid? || e.ending.Done? || e.ending.ResultInvalid?
    ensures LeftAt(e.store, o.plan.value, FinalStatus(e.ending))
  {
    if Fails(e.ending) {
      FailureIsRecorded(s, o);
    } else if !e.ending.FailureInvalid? {
      SuccessIsRecorded(s, o, !e.ending.SuccessNotRecorded?, e.store);
    }
  }

  lemma StartNeedsApproval(s: Workflow.Store, o: Options)
    requires o.plan.Some? && Recorded(s, o, Approved, Running).0
    ensures StandsAt(s, o.plan.value, Approved)
  {
  }

  lemma ApprovedRunEnds(t: Tree, s: Workflow.Store, o: Options)
    requires Built(s) && o.config != [] && Readable(t, o).Some? && o.startValid && o.plan.Some? && AllSound(o)
    requires StandsAt(s, o.plan.value, Approved)
    ensures var e := Executed(t, s, o);
            && (Fails(e.ending) || e.ending.FailureInvalid? || e.ending.Done? || e.ending.ResultInvalid?)
            && Built(e.store) && StandsAt(e.store, o.plan.value, FinalStatus(e.ending))
  {
    HowRunsStart(t, s, o);
    NextIsRecorded(s, o, Approved, Running);
    var started := Recorded(s, o, Approved, Running).1;
    StartedStore(t, started, o);
    EndIsRecorded(started, o, Executed(t, s, o));
  }

  lemma OtherRunsStop(t: Tree, s: Workflow.Store, o: Options)
    requires o.config != [] && o.plan.Some?
    requires !(Readable(t, o).Some? && o.startValid && StandsAt(s, o.plan.value, Approved))
    ensures var e := Executed(t, s, o);
            && e.store == s && e.ending in {ReadFailed, Blocked, StartInvalid, StartNotRecorded}
            && (e.ending == StartNotRecorded <==> Readable(t, o).Some? && o.startValid)
  {
    HowRunsStart(t, s, o);
    if Recorded(s, o, Approved, Running).0 { StartNeedsApproval(s, o); }
  }

  /** In every store that moves have built, and while no statement fails: a run whose file can be read
      starts exactly when its plan is approved, and then always ends with the plan succeeded or
      failed, unless the documents of a failed run do not validate; a success never goes
      unrecorded. Either way the store is again one that moves build. */
  lemma StartedRunEnds(t: Tree, s: Workflow.Store, o: Options)
    requires Built(s) && o.config != [] && o.plan.Some? && AllSound(o)
    ensures var e := Executed(t, s, o);
            if Readable(t, o).Some? && o.startValid && StandsAt(s, o.plan.value, Approved)
            then && (Fails(e.ending) || e.ending.FailureInvalid? || e.ending.Done? || e.ending.ResultInvalid?)
                 && StandsAt(e.store, o.plan.value, FinalStatus(e.ending)) && Built(e.store)
            else && e.store == s && e.ending in {ReadFailed, Blocked, StartInvalid, StartNotRecorded}
                 && (e.ending == StartNotRecorded <==> Readable(t, o).Some? && o.startValid)
  {
    if Readable(t, o).Some? && o.startValid && StandsAt(s, o.plan.value, Approved) {
      ApprovedRunEnds(t, s, o);
    } else {
      OtherRunsStop(t, s, o);
    }
  }

  // ---------------------------------------------------------------- what becomes of the file

  /** The hook and the probe leave this file alone. */
  ghost predicate Spares(check: Check, p: Path) {
    forall t {:trigger check(t)} :: Closed(t) ==> Closed(check(t).1) && FileAt(check(t).1, p) == FileAt(t, p)
  }

  ghost predicate BothSpare(o: Options, p: Path) {
    Spares(o.verify, p) && (o.hook.Some? ==> Spares(o.hook.value, p))
  }

  lemma BackupElsewhere(o: Options)
    requires o.config != []
    ensures BackupPath(o) != o.config && !Above(BackupPath(o), o.config)
    ensures |BackupPath(o)| == |o.config| + 1
  {
  }

  lemma BackedUpSpec(t: Tree, o: Options)
    requires Closed(t) && o.config != [] && FileAt(t, o.config).Some? && BackedUp(t, o).ok
    ensures var r := BackedUp(t, o).tree;
            && Closed(r)
            && forall q :: FileAt(r, q) == if q == BackupPath(o) then FileAt(t, o.config) else FileAt(t, q)
  {
    var dir := Parent(BackupPath(o));
    MkdirAllSpec(t, dir, MODE_0755);
  }

  lemma WrittenSpec(t: Tree, p: Path, text: string)
    requires Closed(t) && FileAt(t, p).Some?
    ensures var r := WriteFile(t, p, text, MODE_0644);
            r.ok && Closed(r.tree) && forall q :: FileAt(r.tree, q) == if q == p then Some(text) else FileAt(t, q)
  {
  }

  /** The patched tree: the file holds the patched text, the backup the original. */
  ghost predicate Patched(t0: Tree, o: Options, t: Tree)
    requires o.config != [] && Readable(t0, o).Some?
  {
    && Closed(t) && FileAt(t, BackupPath(o)) == FileAt(t0, o.config)
    && FileAt(t, o.config) == Some(PatchedText(Readable(t0, o).value, o))
  }

  lemma PatchedTree(t: Tree, o: Options)
    requires Closed(t) && o.config != [] && Readable(t, o).Some? && BackedUp(t, o).ok
    ensures Written(t, o).ok && Patched(t, o, Written(t, o).tree)
  {
    BackupElsewhere(o);
    BackedUpSpec(t, o);
    WrittenSpec(BackedUp(t, o).tree, o.config, PatchedText(Readable(t, o).value, o));
  }

  /** The run as a transaction, when hook and probe leave the file and its backup alone: when the
      verification passed the file stores the original document with only the key path changed, in
      every other ending it has its original bytes. A backup that was made can be restored. */
  lemma RunIsATransaction(t: Tree, s: Workflow.Store, o: Options)
    requires Closed(t) && o.config != []
    requires forall d: Json :: d.Obj? ==> o.codec.decode(o.codec.encode(d)) == Some(d)
    requires BothSpare(o, o.config) && BothSpare(o, BackupPath(o))
    ensures var e := Executed(t, s, o);
            && (e.ending in {Done, ResultInvalid, SuccessNotRecorded} ==>
                  && Readable(t, o).Some?
                  && Decoded(e.tree, o) == Some(SetAt(Readable(t, o).value, Keys(o.keyPath), Str(o.replacement))))
            && (e.ending !in {Done, ResultInvalid, SuccessNotRecorded} ==>
                FileAt(e.tree, o.config) == FileAt(t, o.config))
            && e.ending !in {WriteFailed, FailedRollbackFailed}
  {
    if Readable(t, o).Some? {
      if BackedUp(t, o).ok {
        PatchedTree(t, o);
        FinishedIsSafe(t, Written(t, o).tree, Recorded(s, o, Approved, Running).1, o);
      } else {
        FailedBackup(t, o);
      }
    }
  }

  lemma FailedBackup(t: Tree, o: Options)
    requires Closed(t) && o.config != [] && FileAt(t, o.config).Some? && !BackedUp(t, o).ok
    ensures FileAt(BackedUp(t, o).tree, o.config) == FileAt(t, o.config)
  {
    MkdirAllSpec(t, Parent(BackupPath(o)), MODE_0755);
  }

  lemma RestoredSpec(t0: Tree, t: Tree, o: Options)
    requires Closed(t) && o.config != [] && FileAt(t, o.config).Some? && FileAt(t0, o.config).Some?
    requires FileAt(t, BackupPath(o)) == FileAt(t0, o.config)
    ensures Restored(t, o).ok && FileAt(Restored(t, o).tree, o.config) == FileAt(t0, o.config)
  {
    WrittenSpec(t, o.config, FileAt(t, BackupPath(o)).value);
  }

  lemma FinishedIsSafe(t0: Tree, t: Tree, s: Workflow.Store, o: Options)
    requires o.config != [] && Readable(t0, o).Some? && Patched(t0, o, t)
    requires BothSpare(o, o.config) && BothSpare(o, BackupPath(o))
    ensures var e := Finished(t, s, o);
            && (e.ending in {Done, ResultInvalid, SuccessNotRecorded} ==>
                  FileAt(e.tree, o.config) == Some(PatchedText(Readable(t0, o).value, o)))
            && (e.ending !in {Done, ResultInvalid, SuccessNotRecorded} ==>
                FileAt(e.tree, o.config) == FileAt(t0, o.config))
            && e.ending in {Done, ResultInvalid, SuccessNotRecorded, HookFailed, FailedRolledBack, FailureInvalid}
  {
    var hooked := Hooked(t, o);
    assert Patched(t0, o, hooked.1);
    if !hooked.0 {
      RestoredSpec(t0, hooked.1, o);
    } else if !o.verify(hooked.1).0 {
      RestoredSpec(t0, o.verify(hooked.1).1, o);
    }
  }

  lemma BackupSurvives(t0: Tree, t: Tree, o: Options)
    requires Closed(t) && o.config != [] && FileAt(t, BackupPath(o)) == FileAt(t0, o.config)
    requires BothSpare(o, BackupPath(o))
    ensures FileAt(Probed(t, o), BackupPath(o)) == FileAt(t0, o.config)
  {
    assert Closed(Hooked(t, o).1);
  }

  /** The tree that the verification of a patched configuration leaves behind. */
  function Probed(t: Tree, o: Options): Tree {
    o.verify(Hooked(t, o).1).1
  }

  lemma FinishedRolledBack(t: Tree, s: Workflow.Store, o: Options)
    requires o.config != [] && Finished(t, s, o).ending == FailedRolledBack
    ensures Restored(Probed(t, o), o) == Outcome(true, Finished(t, s, o).tree)
  {
  }

  /** A run that ends rolled back got as far as the patch, and its tree is that of the restore. */
  lemma RolledBackFrom(t: Tree, s: Workflow.Store, o: Options)
    requires o.config != [] && Executed(t, s, o).ending == FailedRolledBack
    ensures Readable(t, o).Some? && BackedUp(t, o).ok
    ensures Restored(Probed(Written(t, o).tree, o), o) == Outcome(true, Executed(t, s, o).tree)
  {
    FinishedRolledBack(Written(t, o).tree, Recorded(s, o, Approved, Running).1, o);
  }

  lemma RestoredIsBackup(t: Tree, o: Options)
    requires o.config != [] && Restored(t, o).ok
    ensures FileAt(Restored(t, o).tree, o.config) == FileAt(t, BackupPath(o))
  {
  }

  /** Whatever the hook or the probe did to the configuration file itself: "rolled back" means it
      holds the original bytes. */
  lemma RolledBackMeansOriginal(t: Tree, s: Workflow.Store, o: Options)
    requires Closed(t) && o.config != [] && BothSpare(o, BackupPath(o))
    requires Executed(t, s, o).ending == FailedRolledBack
    ensures FileAt(Executed(t, s, o).tree, o.config) == FileAt(t, o.config)
  {
    RolledBackFrom(t, s, o);
    PatchedTree(t, o);
    BackupSurvives(t, Written(t, o).tree, o);
    RestoredIsBackup(Probed(Written(t, o).tree, o), o);
  }
}
