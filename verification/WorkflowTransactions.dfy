/** The same moves as they run side by side: each transaction executes its statements one by one
    under read-committed isolation, holding the lock of the row it updated and of the unique key
    it inserted until it ends. What a statement writes is computed when it runs and stays with the
    transaction; a commit installs exactly that. */
module WorkflowTransactions {
  import opened Domain
  import opened Workflow
  import opened Wrappers

  datatype Stage = Begun | Updated | Audited | Appended

  /** The write set: the new row from the UPDATE, then the inserted events. */
  datatype Transaction = Transaction(move: Move, stage: Stage, row: Option<Row>, audit: seq<AuditEvent>,
                                     outbox: seq<OutboxEvent>)

  datatype System = System(store: Store, active: map<nat, Transaction>)

  datatype Step =
    | BeginTx(id: nat, move: Move)
    | RunUpdate(id: nat)
    | RunAudit(id: nat)
    | RunOutbox(id: nat)
    | CommitTx(id: nat)
    | AbortTx(id: nat)
    | InsertRow(key: Key, tenant: string, status: Status, decider: string)

  /** Another transaction has updated this row and not ended yet. */
  predicate RowLocked(active: map<nat, Transaction>, id: nat, key: Key) {
    exists j :: j in active && j != id && !active[j].stage.Begun? && active[j].move.key == key
  }

  /** Another transaction has inserted this outbox key and not ended yet. */
  predicate EventLocked(active: map<nat, Transaction>, id: nat, e: OutboxEvent) {
    exists j :: j in active && j != id && active[j].stage.Appended?
                && active[j].move.tenant == e.tenant && EventOf(active[j].move).idempotencyKey == e.idempotencyKey
  }

  /** Which statements can run now; a statement that must wait for a lock is not enabled. */
  predicate Enabled(sys: System, step: Step) {
    match step
    case BeginTx(id, m) => id !in sys.active && Accepted(m)
    case RunUpdate(id) =>
      && id in sys.active && sys.active[id].stage.Begun?
      && (Matches(sys.store.rows, sys.active[id].move) ==> !RowLocked(sys.active, id, sys.active[id].move.key))
    case RunAudit(id) => id in sys.active && sys.active[id].stage.Updated?
    case RunOutbox(id) =>
      && id in sys.active && sys.active[id].stage.Audited? && !sys.active[id].move.suppressOutbox
      && !EventLocked(sys.active, id, EventOf(sys.active[id].move))
    case CommitTx(id) =>
      && id in sys.active
      && if sys.active[id].move.suppressOutbox then sys.active[id].stage.Audited? else sys.active[id].stage.Appended?
    case AbortTx(id) => id in sys.active
    case InsertRow(_, _, _, _) => true
  }

  function With(sys: System, id: nat, tx: Transaction): System {
    sys.(active := sys.active[id := tx])
  }

  /** The transaction is gone and leaves the committed tables as they are. */
  function Dropped(sys: System, id: nat): System {
    sys.(active := map j | j in sys.active && j != id :: sys.active[j])
  }

  /** The committed tables with the write set of a transaction put in. */
  function Installed(s: Store, tx: Transaction): Store {
    Store(if tx.row.Some? then s.rows[tx.move.key := tx.row.value] else s.rows,
          s.audit + tx.audit, s.outbox + tx.outbox)
  }

  function Next(sys: System, step: Step): System
    requires Enabled(sys, step)
  {
    match step
    case BeginTx(id, m) => With(sys, id, Transaction(m, Begun, None, [], []))
    case RunUpdate(id) =>
      var tx := sys.active[id];
      if Matches(sys.store.rows, tx.move)
      then With(sys, id, tx.(stage := Updated, row := Some(RowAfter(sys.store.rows[tx.move.key], tx.move))))
      else Dropped(sys, id)
    case RunAudit(id) =>
      var tx := sys.active[id];
      With(sys, id, tx.(stage := Audited, audit := tx.audit + [AuditOf(tx.move)]))
    case RunOutbox(id) =>
      var tx := sys.active[id];
      if KeyTaken(sys.store.outbox, EventOf(tx.move)) then Dropped(sys, id)
      else With(sys, id, tx.(stage := Appended, outbox := tx.outbox + [EventOf(tx.move)]))
    case CommitTx(id) => Dropped(sys, id).(store := Installed(sys.store, sys.active[id]))
    case AbortTx(id) => Dropped(sys, id)
    case InsertRow(key, tenant, status, decider) => sys.(store := Do(sys.store, Insert(key, tenant, status, decider)))
  }

  // ---------------------------------------------------------------- what the locks keep

  /** What a transaction has seen is still true, and what it wrote is what it would write now. */
  predicate Holds(s: Store, tx: Transaction) {
    && Accepted(tx.move)
    && (!tx.stage.Begun? ==> Matches(s.rows, tx.move))
    && (tx.stage.Appended? ==> !tx.move.suppressOutbox && !KeyTaken(s.outbox, EventOf(tx.move)))
    && tx.row == (if tx.stage.Begun? then None else Some(RowAfter(s.rows[tx.move.key], tx.move)))
    && tx.audit == (if tx.stage in {Audited, Appended} then [AuditOf(tx.move)] else [])
    && tx.outbox == if tx.stage.Appended? then [EventOf(tx.move)] else []
  }

  /** Two transactions hold different row locks and different key locks. */
  predicate Apart(a: Transaction, b: Transaction) {
    && (!a.stage.Begun? && !b.stage.Begun? ==> a.move.key != b.move.key)
    && (a.stage.Appended? && b.stage.Appended? && a.move.tenant == b.move.tenant ==>
          EventOf(a.move).idempotencyKey != EventOf(b.move).idempotencyKey)
  }

  ghost predicate AllApart(active: map<nat, Transaction>) {
    forall i, j :: i in active && j in active && i != j ==> Apart(active[i], active[j])
  }

  ghost predicate LocksOk(sys: System) {
    (forall i :: i in sys.active ==> Holds(sys.store, sys.active[i])) && AllApart(sys.active)
  }

  /** Installing what a transaction wrote is executing its move at that instant. */
  lemma InstalledIsMoved(s: Store, tx: Transaction)
    requires Holds(s, tx) && if tx.move.suppressOutbox then tx.stage.Audited? else tx.stage.Appended?
    ensures Succeeds(s, tx.move) && Installed(s, tx) == Moved(s, tx.move)
  {
    assert s.outbox + [] == s.outbox;
  }

  lemma CommitKeepsOthers(sys: System, id: nat, j: nat)
    requires LocksOk(sys) && Enabled(sys, CommitTx(id)) && j in sys.active && j != id
    ensures Holds(Next(sys, CommitTx(id)).store, sys.active[j])
  {
    assert Apart(sys.active[id], sys.active[j]);
    var m := sys.active[id].move;
    InstalledIsMoved(sys.store, sys.active[id]);
    var s2 := Moved(sys.store, m);
    if sys.active[j].stage.Appended? {
      var e := EventOf(sys.active[j].move);
      assert !KeyTaken(sys.store.outbox, e);
      forall i | 0 <= i < |s2.outbox|
        ensures !(s2.outbox[i].tenant == e.tenant && s2.outbox[i].idempotencyKey == e.idempotencyKey)
      {
        assert s2.outbox[i] == if i < |sys.store.outbox| then sys.store.outbox[i] else EventOf(m);
      }
    }
  }

  lemma InsertKeepsHold(s: Store, tx: Transaction, insert: Action)
    requires Holds(s, tx) && insert.Insert?
    ensures Holds(Do(s, insert), tx)
  {
  }

  /** A statement that does not end its transaction. */
  lemma StatementHolds(sys: System, step: Step, id: nat)
    requires LocksOk(sys) && Enabled(sys, step)
               && (step == RunUpdate(id) || step == RunAudit(id) || step == RunOutbox(id))
    ensures id in Next(sys, step).active ==> Holds(sys.store, Next(sys, step).active[id])
  {
    assert Holds(sys.store, sys.active[id]);
  }

  lemma NextHolds(sys: System, step: Step, i: nat)
    requires LocksOk(sys) && Enabled(sys, step) && i in Next(sys, step).active
    ensures Holds(Next(sys, step).store, Next(sys, step).active[i])
  {
    match step
    case BeginTx(id, m) => if i != id { assert Holds(sys.store, sys.active[i]); }
    case RunUpdate(id) => if i == id { StatementHolds(sys, step, id); } else { assert Holds(sys.store, sys.active[i]); }
    case RunAudit(id) => if i == id { StatementHolds(sys, step, id); } else { assert Holds(sys.store, sys.active[i]); }
    case RunOutbox(id) => if i == id { StatementHolds(sys, step, id); } else { assert Holds(sys.store, sys.active[i]); }
    case CommitTx(id) => CommitKeepsOthers(sys, id, i);
    case AbortTx(id) => assert Holds(sys.store, sys.active[i]);
    case InsertRow(key, tenant, status, decider) =>
      InsertKeepsHold(sys.store, sys.active[i], Insert(key, tenant, status, decider));
  }

  /** The transaction that moves on is kept apart from the others by the locks. */
  lemma StepApart(active: map<nat, Transaction>, id: nat, tx: Transaction)
    requires AllApart(active)
    requires forall j :: j in active && j != id ==> Apart(tx, active[j]) && Apart(active[j], tx)
    ensures AllApart(active[id := tx])
  {
  }

  lemma FewerApart(sys: System, id: nat)
    requires AllApart(sys.active)
    ensures AllApart(Dropped(sys, id).active)
  {
  }

  lemma UpdateApart(sys: System, id: nat, tx: Transaction)
    requires LocksOk(sys) && id in sys.active && !RowLocked(sys.active, id, tx.move.key)
    requires tx.stage.Updated?
    ensures AllApart(sys.active[id := tx])
  {
    StepApart(sys.active, id, tx);
  }

  lemma AppendApart(sys: System, id: nat, tx: Transaction)
    requires LocksOk(sys) && id in sys.active && sys.active[id].stage.Audited?
               && !EventLocked(sys.active, id, EventOf(tx.move))
    requires tx.stage.Appended? && tx.move == sys.active[id].move
    ensures AllApart(sys.active[id := tx])
  {
    forall j | j in sys.active && j != id ensures Apart(tx, sys.active[j]) && Apart(sys.active[j], tx) {
      assert Apart(sys.active[id], sys.active[j]);
    }
    StepApart(sys.active, id, tx);
  }

  lemma AuditApart(sys: System, id: nat, tx: Transaction)
    requires LocksOk(sys) && id in sys.active && sys.active[id].stage.Updated?
    requires tx.stage.Audited? && tx.move == sys.active[id].move
    ensures AllApart(sys.active[id := tx])
  {
    forall j | j in sys.active && j != id ensures Apart(tx, sys.active[j]) && Apart(sys.active[j], tx) {
      assert Apart(sys.active[id], sys.active[j]);
    }
    StepApart(sys.active, id, tx);
  }

  lemma NextApart(sys: System, step: Step)
    requires LocksOk(sys) && Enabled(sys, step)
    ensures AllApart(Next(sys, step).active)
  {
    var next := Next(sys, step).active;
    match step
    case BeginTx(id, m) => StepApart(sys.active, id, next[id]);
    case RunUpdate(id) => if id in next { UpdateApart(sys, id, next[id]); } else { FewerApart(sys, id); }
    case RunAudit(id) => AuditApart(sys, id, next[id]);
    case RunOutbox(id) => if id in next { AppendApart(sys, id, next[id]); } else { FewerApart(sys, id); }
    case CommitTx(id) => FewerApart(sys, id);
    case AbortTx(id) => FewerApart(sys, id);
    case InsertRow(_, _, _, _) =>
  }

  lemma NextKeepsLocks(sys: System, step: Step)
    requires LocksOk(sys) && Enabled(sys, step)
    ensures LocksOk(Next(sys, step))
  {
    var next := Next(sys, step);
    forall i | i in next.active ensures Holds(next.store, next.active[i]) {
      NextHolds(sys, step, i);
    }
    NextApart(sys, step);
  }

  // ---------------------------------------------------------------- refinement

  /** What a step does to the committed tables, as an action of the one-at-a-time model. */
  function Effect(sys: System, step: Step): seq<Action> {
    match step
    case CommitTx(id) => if id in sys.active then [Try(sys.active[id].move)] else []
    case InsertRow(key, tenant, status, decider) => [Insert(key, tenant, status, decider)]
    case _ => []
  }

  /** Installing a write set that was computed earlier is the whole move executed at that instant on
      the tables of that instant, and it cannot fail; every other step of a transaction changes
      nothing that others can see. */
  lemma StepRefines(sys: System, step: Step)
    requires LocksOk(sys) && Enabled(sys, step)
    ensures var effect := Effect(sys, step);
            && (effect == [] ==> Next(sys, step).store == sys.store)
            && (effect != [] ==> Next(sys, step).store == Do(sys.store, effect[0]))
            && (step.CommitTx? ==> effect != [] && effect[0].Try? && Succeeds(sys.store, effect[0].move))
  {
    if step.CommitTx? { InstalledIsMoved(sys.store, sys.active[step.id]); }
  }

  const START := System(EMPTY, map[])

  /** Steps that are not enabled do not happen. */
  function Executed(steps: seq<Step>): System {
    if steps == [] then START
    else
      var before, step := Executed(steps[..|steps| - 1]), steps[|steps| - 1];
      if Enabled(before, step) then Next(before, step) else before
  }

  /** The actions of a run in the order of their commits. */
  function Actions(steps: seq<Step>): seq<Action> {
    if steps == [] then []
    else
      var before, step := Executed(steps[..|steps| - 1]), steps[|steps| - 1];
      Actions(steps[..|steps| - 1]) + if Enabled(before, step) then Effect(before, step) else []
  }

  /** However the statements of any number of transactions interleave, the committed tables are
      those of the moves executed one at a time in commit order. */
  lemma {:induction false} RunsAreSerial(steps: seq<Step>)
    ensures LocksOk(Executed(steps))
    ensures Executed(steps).store == Run(Actions(steps))
  {
    if steps != [] {
      var init, step := steps[..|steps| - 1], steps[|steps| - 1];
      RunsAreSerial(init);
      var before := Executed(init);
      if Enabled(before, step) {
        NextKeepsLocks(before, step);
        StepRefines(before, step);
        var effect := Effect(before, step);
        if effect != [] {
          assert effect == [effect[0]];
          RunSnoc(Actions(init), effect[0]);
        } else {
          assert Actions(init) + effect == Actions(init);
        }
      } else {
        assert Actions(init) + [] == Actions(init);
      }
    }
  }

  /** So in every interleaving: the audit trail of each row replays to its status and its lock
      version counts it, each status of a remediation row is left and entered at most once, and at
      most seven status changes ever commit. */
  lemma InterleavingsAreAudited(steps: seq<Step>, key: Key)
    requires key in Executed(steps).store.rows
    ensures var s := Executed(steps).store; var row := s.rows[key];
            && Replay(s.audit, key, row.created) == [row.status]
            && row.lockVersion == EventsOf(s.audit, key)
            && (key.kind in {Plan, Attempt} ==> Changes(s.audit, key) <= 7)
            && (key.kind in {Plan, Attempt} ==>
                  forall i, j :: 0 <= i < j < |s.audit| && s.audit[i].key == key && s.audit[j].key == key
                    && s.audit[i].before != s.audit[i].after && s.audit[j].before != s.audit[j].after
                    ==> s.audit[i].before != s.audit[j].before && s.audit[i].after != s.audit[j].after)
  {
    RunsAreSerial(steps);
    AuditReplays(Actions(steps), key);
    if key.kind in {Plan, Attempt} { EachStatusLeftOnce(Actions(steps), key); }
  }

  /** Also in every interleaving, what waited for an approval runs only after it was approved. */
  lemma InterleavingsNeedApproval(steps: seq<Step>, key: Key, i: nat, j: nat) returns (k: nat)
    requires var s := Executed(steps).store;
             && key in s.rows && key.kind in {Plan, Attempt}
             && i < j < |s.audit| && s.audit[i].key == key && s.audit[j].key == key
             && s.audit[i].after == AwaitingApproval && s.audit[j].before != Running && s.audit[j].after == Running
    ensures var s := Executed(steps).store; i < k < j && s.audit[k].key == key && s.audit[k].after == Approved
  {
    RunsAreSerial(steps);
    k := NoRunWithoutApproval(Actions(steps), key, i, j);
  }

  /** And what the outbox announces is in the audit trail, each link of a tenant at most once. */
  lemma InterleavingsAnnounceOnce(steps: seq<Step>)
    ensures var s := Executed(steps).store;
            && (forall j :: 0 <= j < |s.outbox| ==> FromAudit(s, s.outbox[j]))
            && (forall i, j :: 0 <= i < j < |s.outbox| ==>
                  s.outbox[i].tenant != s.outbox[j].tenant || s.outbox[i].idempotencyKey != s.outbox[j].idempotencyKey)
  {
    RunsAreSerial(steps);
    RunConsistent(Actions(steps));
  }

  /** A remediation transaction that has updated its row to another status never meets a taken
      outbox key: only a lost connection can stop it from committing. */
  lemma WinnerCommits(steps: seq<Step>, id: nat)
    requires var sys := Executed(steps); id in sys.active && Enabled(sys, RunOutbox(id))
    requires var m := Executed(steps).active[id].move; m.service.Remediations? && m.from != m.to
    ensures var next := Next(Executed(steps), RunOutbox(id)); id in next.active && Enabled(next, CommitTx(id))
  {
    RunsAreSerial(steps);
    var sys := Executed(steps);
    assert Holds(sys.store, sys.active[id]);
    RemediationNeverBlocked(Actions(steps), sys.active[id].move);
  }

  /** Of two remediation transactions that leave the same status of one row, the second finds no
      row any more, whatever happens in between. */
  lemma LoserConflicts(steps: seq<Step>, more: seq<Step>, id: nat, rival: nat)
    requires var sys := Executed(steps);
             && id in sys.active && Enabled(sys, CommitTx(id))
             && sys.active[id].move.service.Remediations? && sys.active[id].move.from != sys.active[id].move.to
    requires var later := Executed(steps + [CommitTx(id)] + more);
             && rival in later.active
             && later.active[rival].move.key == Executed(steps).active[id].move.key
             && later.active[rival].move.from == Executed(steps).active[id].move.from
    ensures !Matches(Executed(steps + [CommitTx(id)] + more).store.rows,
                     Executed(steps + [CommitTx(id)] + more).active[rival].move)
  {
    var sys, won := Executed(steps), steps + [CommitTx(id)];
    var m := sys.active[id].move;
    RunsAreSerial(steps);
    StepRefines(sys, CommitTx(id));
    assert won[..|steps|] == steps;
    RowsOnlyRise(won, more, m.key);
    RunsAreSerial(won);
    RemediationRises(m.from, m.to);
    assert Executed(won).store.rows[m.key].status == m.to;
  }

  lemma RowRises(sys: System, step: Step, key: Key)
    requires LocksOk(sys) && Enabled(sys, step) && key in sys.store.rows && key.kind in {Plan, Attempt}
    ensures key in Next(sys, step).store.rows
    ensures Rank(sys.store.rows[key].status) <= Rank(Next(sys, step).store.rows[key].status)
  {
    if step.CommitTx? {
      var m := sys.active[step.id].move;
      InstalledIsMoved(sys.store, sys.active[step.id]);
      if m.key == key && m.from != m.to { RemediationRises(m.from, m.to); }
    }
  }

  lemma {:induction false} RowsOnlyRise(past: seq<Step>, future: seq<Step>, key: Key)
    requires key in Executed(past).store.rows && key.kind in {Plan, Attempt}
    ensures key in Executed(past + future).store.rows
    ensures Rank(Executed(past).store.rows[key].status) <= Rank(Executed(past + future).store.rows[key].status)
  {
    if future == [] {
      assert past + future == past;
    } else {
      var all := past + future;
      assert all[..|all| - 1] == past + future[..|future| - 1];
      RowsOnlyRise(past, future[..|future| - 1], key);
      var before, step := Executed(all[..|all| - 1]), all[|all| - 1];
      RunsAreSerial(all[..|all| - 1]);
      if Enabled(before, step) { RowRises(before, step, key); }
    }
  }

  // ---------------------------------------------------------------- who waits for whom

  lemma LinkInTable(s: Store, m: Move)
    requires RowsOk(s) && Accepted(m) && Matches(s.rows, m)
    ensures InTable(m.key.kind, m.from) && InTable(m.key.kind, m.to)
  {
    MovedStaysInTable(m);
  }

  /** The insert into the outbox never waits: whoever holds the same key would hold the same row. */
  lemma OutboxNeverWaits(sys: System, id: nat)
    requires LocksOk(sys) && Consistent(sys.store) && id in sys.active && sys.active[id].stage.Audited?
    ensures !EventLocked(sys.active, id, EventOf(sys.active[id].move))
  {
    var m := sys.active[id].move;
    assert Holds(sys.store, sys.active[id]);
    LinkInTable(sys.store, m);
    forall j | j in sys.active && j != id && sys.active[j].stage.Appended? && sys.active[j].move.tenant == m.tenant
      ensures EventOf(sys.active[j].move).idempotencyKey != EventOf(m).idempotencyKey
    {
      var other := sys.active[j].move;
      assert Holds(sys.store, sys.active[j]) && Apart(sys.active[id], sys.active[j]);
      LinkInTable(sys.store, other);
      if EventOf(other).idempotencyKey == EventOf(m).idempotencyKey {
        KeyTextInjective(m.tenant, m.key, m.from, m.to, other.key, other.from, other.to);
      }
    }
  }

  /** The statements of one transaction. */
  function Statements(id: nat, m: Move): seq<Step> {
    [BeginTx(id, m), RunUpdate(id), RunAudit(id)] + (if m.suppressOutbox then [] else [RunOutbox(id)]) + [CommitTx(id)]
  }

  /** One more statement, which happens unless it is not enabled. */
  function Then(sys: System, step: Step): System {
    if Enabled(sys, step) then Next(sys, step) else sys
  }

  lemma OneStatement(steps: seq<Step>, step: Step)
    ensures Executed(steps + [step]) == Then(Executed(steps), step)
  {
    assert (steps + [step])[..|steps|] == steps;
  }

  lemma FiveStatements(steps: seq<Step>, id: nat, m: Move)
    ensures Executed(steps + Statements(id, m)) == Ended(Opened(Executed(steps), id, m), id, m)
  {
    var two := steps + [BeginTx(id, m)] + [RunUpdate(id)];
    var last := two + [RunAudit(id)] + if m.suppressOutbox then [] else [RunOutbox(id)];
    OneStatement(steps, BeginTx(id, m));
    OneStatement(steps + [BeginTx(id, m)], RunUpdate(id));
    OneStatement(two, RunAudit(id));
    OneStatement(two + [RunAudit(id)], RunOutbox(id));
    OneStatement(last, CommitTx(id));
    assert two + [RunAudit(id)] + [] == two + [RunAudit(id)];
    assert steps + Statements(id, m) == last + [CommitTx(id)];
  }

  function Opened(sys: System, id: nat, m: Move): System {
    Then(Then(Then(sys, BeginTx(id, m)), RunUpdate(id)), RunAudit(id))
  }

  function Ended(sys: System, id: nat, m: Move): System {
    Then(if m.suppressOutbox then sys else Then(sys, RunOutbox(id)), CommitTx(id))
  }

  /** Nobody else holds the lock of this row. */
  predicate RowFree(sys: System, key: Key) {
    forall j :: j in sys.active ==> sys.active[j].stage.Begun? || sys.active[j].move.key != key
  }

  /** The transaction after its audit event. */
  function WithAudit(sys: System, id: nat, m: Move): System
    requires m.key in sys.store.rows
  {
    With(sys, id, Transaction(m, Audited, Some(RowAfter(sys.store.rows[m.key], m)), [AuditOf(m)], []))
  }

  lemma OpenedIs(sys: System, id: nat, m: Move)
    requires id !in sys.active && Accepted(m) && RowFree(sys, m.key)
    ensures Opened(sys, id, m) == if Matches(sys.store.rows, m) then WithAudit(sys, id, m) else sys
  {
    var begun := Then(sys, BeginTx(id, m));
    assert !RowLocked(begun.active, id, m.key);
    assert Dropped(begun, id).active == sys.active;
    if Matches(sys.store.rows, m) {
      var updated := Then(begun, RunUpdate(id));
      assert updated.active
             == sys.active[id := Transaction(m, Updated, Some(RowAfter(sys.store.rows[m.key], m)), [], [])];
      assert [] + [AuditOf(m)] == [AuditOf(m)];
      assert Then(updated, RunAudit(id)).active == WithAudit(sys, id, m).active;
    }
  }

  lemma EndedIs(sys: System, id: nat, m: Move)
    requires id !in sys.active && Matches(sys.store.rows, m) && Accepted(m)
    requires !EventLocked(WithAudit(sys, id, m).active, id, EventOf(m))
    ensures Ended(WithAudit(sys, id, m), id, m)
         == sys.(store := if Succeeds(sys.store, m) then Moved(sys.store, m) else sys.store)
  {
    var audited := WithAudit(sys, id, m);
    assert Dropped(audited, id) == sys;
    if m.suppressOutbox {
      InstalledIsMoved(sys.store, audited.active[id]);
    } else {
      AppendedIs(sys, id, m, audited, Then(audited, RunOutbox(id)));
    }
  }

  lemma AppendedIs(sys: System, id: nat, m: Move, audited: System, appended: System)
    requires id !in sys.active && Matches(sys.store.rows, m) && Accepted(m) && !m.suppressOutbox
    requires audited == WithAudit(sys, id, m) && !EventLocked(audited.active, id, EventOf(m))
    requires appended == Then(audited, RunOutbox(id)) && Dropped(audited, id) == sys
    ensures Then(appended, CommitTx(id))
         == sys.(store := if Succeeds(sys.store, m) then Moved(sys.store, m) else sys.store)
  {
    if !KeyTaken(sys.store.outbox, EventOf(m)) {
      InstalledIsMoved(sys.store, appended.active[id]);
      assert Dropped(appended, id).active == sys.active;
    }
  }

  lemma OpenedIsOk(sys: System, id: nat, m: Move)
    requires LocksOk(sys)
    ensures LocksOk(Opened(sys, id, m)) && Opened(sys, id, m).store == sys.store
  {
    var begun := Then(sys, BeginTx(id, m));
    if Enabled(sys, BeginTx(id, m)) { NextKeepsLocks(sys, BeginTx(id, m)); }
    if Enabled(begun, RunUpdate(id)) { NextKeepsLocks(begun, RunUpdate(id)); }
    var updated := Then(begun, RunUpdate(id));
    if Enabled(updated, RunAudit(id)) { NextKeepsLocks(updated, RunAudit(id)); }
  }

  /** Nothing but a lock on its own row can keep a transaction waiting. In every state that
      interleavings reach, a transaction for whose row nobody holds the lock runs to its end at once,
      whatever the others are at: it commits its move when the row is as expected and the link is not
      announced yet, else it leaves the tables alone, and in no case does it disturb the others. */
  lemma OthersDoNotDelay(steps: seq<Step>, id: nat, m: Move)
    requires id !in Executed(steps).active && Accepted(m)
    requires forall j :: j in Executed(steps).active ==>
               Executed(steps).active[j].stage.Begun? || Executed(steps).active[j].move.key != m.key
    ensures var sys, after := Executed(steps), Executed(steps + Statements(id, m));
            && after.active == sys.active
            && after.store == if Succeeds(sys.store, m) then Moved(sys.store, m) else sys.store
  {
    var sys := Executed(steps);
    FiveStatements(steps, id, m);
    OpenedIs(sys, id, m);
    if Matches(sys.store.rows, m) {
      RunsAreSerial(steps);
      RunConsistent(Actions(steps));
      OpenedIsOk(sys, id, m);
      OutboxNeverWaits(WithAudit(sys, id, m), id);
      EndedIs(sys, id, m);
    }
  }
}
