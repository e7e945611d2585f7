/** internal/workflow and the tables of internal/store/postgres it writes: one move changes a
    status, appends an audit event and, unless told not to, appends an outbox event, all in one
    transaction. */
module Workflow {
  import opened Domain
  import opened Text

  datatype Kind = Cluster | Branch | Plan | Attempt | Approval | Unsupported(name: string)

  datatype Key = Key(kind: Kind, id: string)

  /** A row of one of the five status tables. `created` is the status it was inserted with, which
      the stored payload keeps. */
  datatype Row = Row(tenant: string, created: Status, status: Status, lockVersion: nat, decidedBy: string)

  datatype AuditEvent = AuditEvent(tenant: string, key: Key, actor: string, before: Status, after: Status)

  datatype OutboxEvent = OutboxEvent(tenant: string, key: Key, before: Status, after: Status, idempotencyKey: string)

  datatype Store = Store(rows: map<Key, Row>, audit: seq<AuditEvent>, outbox: seq<OutboxEvent>)

  datatype Service = Investigations | Remediations | Approvals

  datatype Move = Move(service: Service, tenant: string, key: Key, from: Status, to: Status,
                       decider: string, actor: string, suppressOutbox: bool)

  // ---------------------------------------------------------------- names

  function KindText(k: Kind): string {
    match k
    case Cluster => "investigation_cluster"
    case Branch => "investigation_branch"
    case Plan => "remediation_plan"
    case Attempt => "remediation_attempt"
    case Approval => "approval_request"
    case Unsupported(name) => name
  }

  function StatusText(s: Status): string {
    match s
    case Requested => "requested"
    case Fingerprinted => "fingerprinted"
    case Linked => "linked"
    case Queued => "queued"
    case Rejected => "rejected"
    case NeedsMoreData => "needs_more_data"
    case Completed => "completed"
    case Pending => "pending"
    case Planning => "planning"
    case AwaitingApproval => "awaiting_approval"
    case Approved => "approved"
    case Denied => "denied"
    case Running => "running"
    case Monitoring => "monitoring"
    case Succeeded => "succeeded"
    case Failed => "failed"
    case RolledBack => "rolled_back"
    case Escalated => "escalated"
    case Expired => "expired"
    case Other(name) => name
  }

  /** transitionIdempotencyKey. */
  function KeyText(tenant: string, key: Key, from: Status, to: Status): string {
    tenant + ":" + KindText(key.kind) + ":" + key.id + ":" + StatusText(from) + ":" + StatusText(to)
  }

  /** The status check constraint of the table. */
  predicate InTable(kind: Kind, s: Status) {
    match kind
    case Cluster => s in {Requested, Fingerprinted, Linked, Queued, Running, NeedsMoreData, Completed, Failed, Rejected}
    case Branch => s in {Requested, Fingerprinted, Linked, Queued, Running, NeedsMoreData, Completed, Failed, Rejected}
    case Plan => s in {Pending, Planning, AwaitingApproval, Approved, Denied, Running, Monitoring, Succeeded, Failed,
                       RolledBack, Escalated}
    case Attempt => s in {Pending, Planning, AwaitingApproval, Approved, Denied, Running, Monitoring, Succeeded,
                          Failed, RolledBack, Escalated}
    case Approval => s in {Pending, Approved, Denied, Expired}
    case Unsupported(_) => false
  }

  lemma StatusTextPlain(s: Status)
    requires !s.Other?
    ensures ':' !in StatusText(s)
  {
  }

  lemma StatusTextInjective(a: Status, b: Status)
    requires !a.Other? && !b.Other? && StatusText(a) == StatusText(b)
    ensures a == b
  {
    assert |StatusText(a)| == |StatusText(b)|;
    assert StatusText(a)[0] == StatusText(b)[0] && StatusText(a)[1] == StatusText(b)[1]
        && StatusText(a)[2] == StatusText(b)[2];
  }

  lemma KindTextPlain(k: Kind)
    requires !k.Unsupported?
    ensures ':' !in KindText(k)
  {
  }

  lemma KindTextInjective(a: Kind, b: Kind)
    requires !a.Unsupported? && !b.Unsupported? && KindText(a) == KindText(b)
    ensures a == b
  {
    assert |KindText(a)| == |KindText(b)|;
  }

  lemma SplitAfterTenant(tenant: string, a: string, x: string, b: string, y: string)
    requires tenant + ":" + a + ":" + x == tenant + ":" + b + ":" + y && ':' !in a && ':' !in b
    ensures a == b && x == y
  {
    var p, s, t := tenant + ":", a + ":" + x, b + ":" + y;
    assert tenant + ":" + a + ":" + x == p + s && tenant + ":" + b + ":" + y == p + t;
    assert (p + s)[|p|..] == s && (p + t)[|p|..] == t;
    OneSeparator(a, x, b, y, ':');
  }

  lemma RowTextInjective(tenant: string, k1: Key, k2: Key)
    requires !k1.kind.Unsupported? && !k2.kind.Unsupported?
    requires tenant + ":" + KindText(k1.kind) + ":" + k1.id == tenant + ":" + KindText(k2.kind) + ":" + k2.id
    ensures k1 == k2
  {
    KindTextPlain(k1.kind);
    KindTextPlain(k2.kind);
    SplitAfterTenant(tenant, KindText(k1.kind), k1.id, KindText(k2.kind), k2.id);
    KindTextInjective(k1.kind, k2.kind);
  }

  lemma TailTextInjective(a1: string, f1: Status, t1: Status, a2: string, f2: Status, t2: Status)
    requires !f1.Other? && !t1.Other? && !f2.Other? && !t2.Other?
    requires a1 + ":" + StatusText(f1) + ":" + StatusText(t1) == a2 + ":" + StatusText(f2) + ":" + StatusText(t2)
    ensures a1 == a2 && f1 == f2 && t1 == t2
  {
    StatusTextPlain(f1);
    StatusTextPlain(t1);
    StatusTextPlain(f2);
    StatusTextPlain(t2);
    OneSeparator(a1 + ":" + StatusText(f1), StatusText(t1), a2 + ":" + StatusText(f2), StatusText(t2), ':');
    OneSeparator(a1, StatusText(f1), a2, StatusText(f2), ':');
    StatusTextInjective(f1, f2);
    StatusTextInjective(t1, t2);
  }

  /** Two moves of one tenant have the same idempotency key only when they are the same move of
      the same row, whatever characters the identifier holds. */
  lemma KeyTextInjective(tenant: string, k1: Key, f1: Status, t1: Status, k2: Key, f2: Status, t2: Status)
    requires InTable(k1.kind, f1) && InTable(k1.kind, t1) && InTable(k2.kind, f2) && InTable(k2.kind, t2)
    requires KeyText(tenant, k1, f1, t1) == KeyText(tenant, k2, f2, t2)
    ensures k1 == k2 && f1 == f2 && t1 == t2
  {
    var a1, a2 := tenant + ":" + KindText(k1.kind) + ":" + k1.id, tenant + ":" + KindText(k2.kind) + ":" + k2.id;
    TailTextInjective(a1, f1, t1, a2, f2, t2);
    RowTextInjective(tenant, k1, k2);
  }

  // ---------------------------------------------------------------- one transaction

  predicate Allowed(service: Service, from: Status, to: Status) {
    match service
    case Investigations => CanMoveInvestigation(from, to)
    case Remediations => CanMoveRemediation(from, to)
    case Approvals => CanMoveApproval(from, to)
  }

  predicate Serves(service: Service, kind: Kind) {
    match service
    case Investigations => kind in {Cluster, Branch}
    case Remediations => kind in {Plan, Attempt}
    case Approvals => kind == Approval
  }

  /** The checks before the transaction begins. */
  predicate Accepted(m: Move) {
    && m.tenant != "" && KindText(m.key.kind) != "" && m.key.id != ""
    && (m.service.Approvals? ==> m.decider != "" && m.key.kind == Approval)
    && Allowed(m.service, m.from, m.to)
  }

  /** The compare-and-set of the status finds its row. */
  predicate Matches(rows: map<Key, Row>, m: Move) {
    Serves(m.service, m.key.kind) && m.key in rows && rows[m.key].tenant == m.tenant && rows[m.key].status == m.from
  }

  function RowAfter(r: Row, m: Move): Row {
    r.(status := m.to, lockVersion := r.lockVersion + 1,
       decidedBy := if m.service.Approvals? then m.decider else r.decidedBy)
  }

  function AuditOf(m: Move): AuditEvent {
    AuditEvent(m.tenant, m.key, if m.service.Approvals? && m.actor == "" then m.decider else m.actor, m.from, m.to)
  }

  function EventOf(m: Move): OutboxEvent {
    OutboxEvent(m.tenant, m.key, m.from, m.to, KeyText(m.tenant, m.key, m.from, m.to))
  }

  /** The unique constraint of the outbox. */
  predicate KeyTaken(outbox: seq<OutboxEvent>, e: OutboxEvent) {
    exists i :: 0 <= i < |outbox| && outbox[i].tenant == e.tenant && outbox[i].idempotencyKey == e.idempotencyKey
  }

  predicate Succeeds(s: Store, m: Move) {
    Accepted(m) && Matches(s.rows, m) && (m.suppressOutbox || !KeyTaken(s.outbox, EventOf(m)))
  }

  function Moved(s: Store, m: Move): Store
    requires m.key in s.rows
  {
    Store(s.rows[m.key := RowAfter(s.rows[m.key], m)], s.audit + [AuditOf(m)],
          if m.suppressOutbox then s.outbox else s.outbox + [EventOf(m)])
  }

  class Database {
    var store: Store

    constructor ()
      ensures store == EMPTY
    {
      store := EMPTY;
    }
  }

  /** The statements of a transaction that can fail for reasons outside the model. */
  datatype Statement = Begin | UpdateStatus | AppendAudit | NewId | AppendOutbox | Commit

  class Tx {
    var rows: map<Key, Row>
    var audit: seq<AuditEvent>
    var outbox: seq<OutboxEvent>

    constructor (s: Store)
      ensures rows == s.rows && audit == s.audit && outbox == s.outbox
    {
      rows, audit, outbox := s.rows, s.audit, s.outbox;
    }

    /** updateStatus and the approval's UpdateStatus; no row means a conflict. */
    method UpdateStatus(m: Move) returns (ok: bool)
      modifies this`rows
      ensures ok <==> Matches(old(rows), m)
      ensures rows == if ok then old(rows)[m.key := RowAfter(old(rows)[m.key], m)] else old(rows)
    {
      if !Serves(m.service, m.key.kind) { return false; }
      if m.key !in rows || rows[m.key].tenant != m.tenant || rows[m.key].status != m.from { return false; }
      rows := rows[m.key := RowAfter(rows[m.key], m)];
      ok := true;
    }

    /** appendTransitionEvents. */
    method AppendTransitionEvents(m: Move, broken: set<Statement>) returns (ok: bool)
      modifies this`audit, this`outbox
      ensures ok <==> AppendAudit !in broken
                      && (m.suppressOutbox
                          || (NewId !in broken && AppendOutbox !in broken && !KeyTaken(old(outbox), EventOf(m))))
      ensures ok ==> audit == old(audit) + [AuditOf(m)]
      ensures ok ==> outbox == if m.suppressOutbox then old(outbox) else old(outbox) + [EventOf(m)]
    {
      if AppendAudit in broken { return false; }
      audit := audit + [AuditOf(m)];
      if m.suppressOutbox { return true; }
      if NewId in broken { return false; }
      if AppendOutbox in broken || KeyTaken(outbox, EventOf(m)) { return false; }
      outbox := outbox + [EventOf(m)];
      ok := true;
    }
  }

  predicate Sound(m: Move, broken: set<Statement>) {
    broken !! ({Begin, UpdateStatus, AppendAudit, Commit} + if m.suppressOutbox then {} else {NewId, AppendOutbox})
  }

  /** MoveInvestigation, MoveRemediation and DecideApproval with WithinTx around them: either the
      whole move is there afterwards or nothing of it. */
  method Perform(db: Database, m: Move, broken: set<Statement>) returns (ok: bool)
    modifies db
    ensures ok <==> Succeeds(old(db.store), m) && Sound(m, broken)
    ensures ok ==> m.key in old(db.store).rows && db.store == Moved(old(db.store), m)
    ensures !ok ==> db.store == old(db.store)
    ensures ok ==>
              && m.tenant != "" && m.key.id != "" && m.key in old(db.store.rows)
              && old(db.store.rows)[m.key].tenant == m.tenant && old(db.store.rows)[m.key].status == m.from
              && db.store.rows.Keys == old(db.store.rows).Keys
              && (forall key :: key in db.store.rows && key != m.key ==> db.store.rows[key] == old(db.store.rows)[key])
              && var before, after := old(db.store.rows)[m.key], db.store.rows[m.key];
                 && after.status == m.to && after.lockVersion == before.lockVersion + 1
                 && after.tenant == before.tenant && after.created == before.created
                 && (m.service.Approvals? ==> m.decider != "" && after.decidedBy == m.decider)
                 && (!m.service.Approvals? ==> after.decidedBy == before.decidedBy)
  {
    if !Accepted(m) || Begin in broken { return false; }
    var tx := new Tx(db.store);
    if UpdateStatus in broken { return false; }
    var updated := tx.UpdateStatus(m);
    if !updated { return false; }
    var appended := tx.AppendTransitionEvents(m, broken);
    if !appended || Commit in broken { return false; }
    db.store := Store(tx.rows, tx.audit, tx.outbox);
    ok := true;
  }

  /** What it takes for a move to go through, as far as it is not for a statement that fails: who asks, which
      kind of row, the relation of that kind, the row as expected, and no earlier announcement. */
  lemma SucceedsWhen(s: Store, m: Move)
    ensures Succeeds(s, m) <==>
              && m.tenant != "" && m.key.id != ""
              && (|| (m.service.Investigations? && (m.key.kind.Cluster? || m.key.kind.Branch?)
                      && CanMoveInvestigation(m.from, m.to))
                  || (m.service.Remediations? && (m.key.kind.Plan? || m.key.kind.Attempt?)
                      && CanMoveRemediation(m.from, m.to))
                  || (m.service.Approvals? && m.key.kind.Approval? && m.decider != "" && CanMoveApproval(m.from, m.to)))
              && m.key in s.rows && s.rows[m.key].tenant == m.tenant && s.rows[m.key].status == m.from
              && (m.suppressOutbox || forall i :: 0 <= i < |s.outbox| && s.outbox[i].tenant == m.tenant ==>
                    s.outbox[i].idempotencyKey != KeyText(m.tenant, m.key, m.from, m.to))
  {
  }

  /** The statements a move needs. */
  lemma SoundWhen(m: Move, broken: set<Statement>)
    ensures Sound(m, broken) <==>
              && Begin !in broken && UpdateStatus !in broken && AppendAudit !in broken && Commit !in broken
              && (m.suppressOutbox || (NewId !in broken && AppendOutbox !in broken))
  {
    var needed := {Begin, UpdateStatus, AppendAudit, Commit} + if m.suppressOutbox then {} else {NewId, AppendOutbox};
    assert forall x :: x in needed <==>
                         x == Begin || x == UpdateStatus || x == AppendAudit || x == Commit
                         || (!m.suppressOutbox && (x == NewId || x == AppendOutbox));
  }

  /** A table holds exactly the statuses that some move of its kind leads from or to. */
  lemma InvestigationTable(s: Status)
    ensures var moved := exists x: Status :: x != s && (CanMoveInvestigation(s, x) || CanMoveInvestigation(x, s));
            (InTable(Cluster, s) <==> moved) && (InTable(Branch, s) <==> moved)
  {
    assert CanMoveInvestigation(Requested, Fingerprinted) && CanMoveInvestigation(Fingerprinted, Linked);
    assert CanMoveInvestigation(Fingerprinted, Queued) && CanMoveInvestigation(Running, NeedsMoreData);
    assert CanMoveInvestigation(Linked, Completed) && CanMoveInvestigation(Linked, Failed);
    assert CanMoveInvestigation(Queued, Rejected);
  }

  lemma RemediationTable(s: Status)
    ensures var moved := exists x: Status :: x != s && (CanMoveRemediation(s, x) || CanMoveRemediation(x, s));
            (InTable(Plan, s) <==> moved) && (InTable(Attempt, s) <==> moved)
  {
    assert CanMoveRemediation(Pending, Planning) && CanMoveRemediation(Planning, AwaitingApproval);
    assert CanMoveRemediation(Planning, Approved) && CanMoveRemediation(Planning, Denied);
    assert CanMoveRemediation(Running, Monitoring) && CanMoveRemediation(Running, Succeeded);
    assert CanMoveRemediation(Failed, RolledBack) && CanMoveRemediation(Failed, Escalated);
  }

  lemma ApprovalTable(s: Status)
    ensures InTable(Approval, s) <==> exists x: Status :: x != s && (CanMoveApproval(s, x) || CanMoveApproval(x, s))
  {
    assert CanMoveApproval(Pending, Approved) && CanMoveApproval(Pending, Denied) && CanMoveApproval(Pending, Expired);
  }

  // ---------------------------------------------------------------- runs

  const EMPTY := Store(map[], [], [])

  /** What happens to the tables one after the other: a row is inserted by one of the Create
      methods, or a move is attempted. */
  datatype Action = Insert(key: Key, tenant: string, status: Status, decider: string) | Try(move: Move)

  function Do(s: Store, a: Action): Store {
    match a
    case Insert(key, tenant, status, decider) =>
      if key in s.rows || !InTable(key.kind, status) then s
      else s.(rows := s.rows[key := Row(tenant, status, status, 0, decider)])
    case Try(m) => if Succeeds(s, m) then Moved(s, m) else s
  }

  function Run(actions: seq<Action>): Store {
    if actions == [] then EMPTY else Do(Run(actions[..|actions| - 1]), actions[|actions| - 1])
  }

  lemma RunSnoc(actions: seq<Action>, a: Action)
    ensures Run(actions + [a]) == Do(Run(actions), a)
  {
    assert (actions + [a])[..|actions|] == actions;
  }

  /** Following the audit events of one row from a status: where they lead, if each starts where
      the one before ended and is allowed. */
  function Replay(audit: seq<AuditEvent>, key: Key, start: Status): seq<Status> {
    if audit == [] then [start]
    else
      var before, last := Replay(audit[..|audit| - 1], key, start), audit[|audit| - 1];
      if last.key != key then before
      else if before == [last.before] && RowAllows(key.kind, last.before, last.after) then [last.after]
      else []
  }

  predicate RowAllows(kind: Kind, from: Status, to: Status) {
    match kind
    case Cluster => CanMoveInvestigation(from, to)
    case Branch => CanMoveInvestigation(from, to)
    case Plan => CanMoveRemediation(from, to)
    case Attempt => CanMoveRemediation(from, to)
    case Approval => CanMoveApproval(from, to)
    case Unsupported(_) => false
  }

  function EventsOf(audit: seq<AuditEvent>, key: Key): nat {
    if audit == [] then 0
    else EventsOf(audit[..|audit| - 1], key) + if audit[|audit| - 1].key == key then 1 else 0
  }

  /** What every row and every event of a reachable store satisfy. */
  ghost predicate RowsOk(s: Store) {
    && (forall k :: k in s.rows ==> InTable(k.kind, s.rows[k].status) && InTable(k.kind, s.rows[k].created))
    && (forall k :: k in s.rows ==> Replay(s.audit, k, s.rows[k].created) == [s.rows[k].status])
    && (forall k :: k in s.rows ==> s.rows[k].lockVersion == EventsOf(s.audit, k))
  }

  ghost predicate AuditOk(s: Store) {
    forall i :: 0 <= i < |s.audit| ==> s.audit[i].key in s.rows && s.audit[i].tenant == s.rows[s.audit[i].key].tenant
  }

  ghost predicate FromAudit(s: Store, e: OutboxEvent) {
    && e.idempotencyKey == KeyText(e.tenant, e.key, e.before, e.after)
    && InTable(e.key.kind, e.before) && InTable(e.key.kind, e.after)
    && exists i :: 0 <= i < |s.audit| && s.audit[i].key == e.key && s.audit[i].before == e.before
         && s.audit[i].after == e.after
  }

  ghost predicate OutboxOk(s: Store) {
    && (forall j :: 0 <= j < |s.outbox| ==> FromAudit(s, s.outbox[j]))
    && (forall i, j :: 0 <= i < j < |s.outbox| ==>
          s.outbox[i].tenant != s.outbox[j].tenant || s.outbox[i].idempotencyKey != s.outbox[j].idempotencyKey)
  }

  ghost predicate Consistent(s: Store) {
    RowsOk(s) && AuditOk(s) && OutboxOk(s)
  }

  lemma ReplaySnoc(audit: seq<AuditEvent>, e: AuditEvent, key: Key, start: Status)
    ensures Replay(audit + [e], key, start) ==
            var before := Replay(audit, key, start);
            if e.key != key then before
            else if before == [e.before] && RowAllows(key.kind, e.before, e.after) then [e.after] else []
    ensures EventsOf(audit + [e], key) == EventsOf(audit, key) + if e.key == key then 1 else 0
  {
    assert (audit + [e])[..|audit|] == audit;
  }

  lemma {:induction false} ReplayOfOthers(audit: seq<AuditEvent>, key: Key, start: Status)
    requires forall i :: 0 <= i < |audit| ==> audit[i].key != key
    ensures Replay(audit, key, start) == [start] && EventsOf(audit, key) == 0
  {
    if audit != [] { ReplayOfOthers(audit[..|audit| - 1], key, start); }
  }

  lemma MovedStaysInTable(m: Move)
    requires Serves(m.service, m.key.kind) && Allowed(m.service, m.from, m.to) && InTable(m.key.kind, m.from)
    ensures InTable(m.key.kind, m.to) && RowAllows(m.key.kind, m.from, m.to)
  {
  }

  lemma MovedRowsOk(s: Store, m: Move)
    requires RowsOk(s) && Succeeds(s, m)
    ensures RowsOk(Moved(s, m))
  {
    MovedStaysInTable(m);
    var s2 := Moved(s, m);
    forall k | k in s2.rows
      ensures InTable(k.kind, s2.rows[k].status) && InTable(k.kind, s2.rows[k].created)
      ensures Replay(s2.audit, k, s2.rows[k].created) == [s2.rows[k].status]
      ensures s2.rows[k].lockVersion == EventsOf(s2.audit, k)
    {
      ReplaySnoc(s.audit, AuditOf(m), k, s.rows[k].created);
    }
  }

  lemma StillFromAudit(s: Store, m: Move, e: OutboxEvent)
    requires m.key in s.rows && FromAudit(s, e)
    ensures FromAudit(Moved(s, m), e)
  {
    var i :| 0 <= i < |s.audit| && s.audit[i].key == e.key && s.audit[i].before == e.before
        && s.audit[i].after == e.after;
    assert Moved(s, m).audit[i] == s.audit[i];
  }

  lemma MovedOutboxOk(s: Store, m: Move)
    requires RowsOk(s) && OutboxOk(s) && Succeeds(s, m)
    ensures OutboxOk(Moved(s, m))
  {
    MovedStaysInTable(m);
    var s2 := Moved(s, m);
    forall j | 0 <= j < |s2.outbox| ensures FromAudit(s2, s2.outbox[j]) {
      if j < |s.outbox| {
        StillFromAudit(s, m, s.outbox[j]);
      } else {
        assert s2.audit[|s.audit|] == AuditOf(m);
      }
    }
  }

  lemma InsertConsistent(s: Store, a: Action)
    requires Consistent(s) && a.Insert?
    ensures Consistent(Do(s, a))
  {
    var s2 := Do(s, a);
    if a.key !in s.rows { ReplayOfOthers(s.audit, a.key, a.status); }
    forall j | 0 <= j < |s2.outbox| ensures FromAudit(s2, s2.outbox[j]) { assert FromAudit(s, s.outbox[j]); }
  }

  lemma StepConsistent(s: Store, a: Action)
    requires Consistent(s)
    ensures Consistent(Do(s, a))
  {
    match a
    case Insert(_, _, _, _) => InsertConsistent(s, a);
    case Try(m) =>
      if Succeeds(s, m) {
        MovedRowsOk(s, m);
        MovedOutboxOk(s, m);
      }
  }

  lemma {:induction false} RunConsistent(actions: seq<Action>)
    ensures Consistent(Run(actions))
  {
    if actions != [] {
      RunConsistent(actions[..|actions| - 1]);
      StepConsistent(Run(actions[..|actions| - 1]), actions[|actions| - 1]);
    }
  }

  // ---------------------------------------------------------------- facts about every run

  /** Move m stands behind this event: of its tenant, row and link, and in the name of its actor, or of who
      decided when an approval names no other. */
  predicate Behind(m: Move, e: AuditEvent) {
    && e.tenant == m.tenant && e.key == m.key && e.before == m.from && e.after == m.to
    && e.actor == if m.actor == "" && m.service.Approvals? then m.decider else m.actor
  }

  /** Every audit event of a run was recorded by an attempted move, in the name of who attempted it. */
  lemma {:induction false} RecordedBy(actions: seq<Action>, i: nat) returns (k: nat)
    requires i < |Run(actions).audit|
    ensures k < |actions| && actions[k].Try? && Behind(actions[k].move, Run(actions).audit[i])
  {
    var n: nat := |actions| - 1;
    var before := Run(actions[..n]);
    if i < |before.audit| { k := RecordedBy(actions[..n], i); } else { k := n; }
  }

  /** The audit trail of a row leads from the status it was created with to its current status by
      allowed steps, its lock version counts them, and every outbox event belongs to one. */
  lemma AuditReplays(actions: seq<Action>, key: Key)
    requires key in Run(actions).rows
    ensures var s := Run(actions); var row := s.rows[key];
            && Replay(s.audit, key, row.created) == [row.status]
            && row.lockVersion == EventsOf(s.audit, key)
            && InTable(key.kind, row.status)
            && forall j :: 0 <= j < |s.outbox| && s.outbox[j].key == key ==> FromAudit(s, s.outbox[j])
  {
    RunConsistent(actions);
  }

  lemma LegalRises(kind: Kind, from: Status, to: Status)
    requires kind in {Plan, Attempt} && RowAllows(kind, from, to)
    ensures Rank(from) <= Rank(to) && (from != to ==> Rank(from) < Rank(to))
  {
  }

  /** The ranks along the trail of a remediation row. */
  lemma {:induction false} TrailRanks(audit: seq<AuditEvent>, key: Key, start: Status, i: nat)
    requires key.kind in {Plan, Attempt} && i < |audit| && audit[i].key == key && Replay(audit, key, start) != []
    ensures |Replay(audit, key, start)| == 1
    ensures Rank(start) <= Rank(audit[i].before) <= Rank(audit[i].after) <= Rank(Replay(audit, key, start)[0])
    ensures audit[i].before != audit[i].after ==> Rank(audit[i].before) < Rank(audit[i].after)
    decreases |audit|
  {
    var init, last := audit[..|audit| - 1], audit[|audit| - 1];
    TrailStart(init, key, start);
    if last.key == key { LegalRises(key.kind, last.before, last.after); }
    if i < |audit| - 1 {
      assert init[i] == audit[i];
      TrailRanks(init, key, start, i);
    }
  }

  lemma {:induction false} TrailStart(audit: seq<AuditEvent>, key: Key, start: Status)
    requires key.kind in {Plan, Attempt}
    ensures Replay(audit, key, start) != [] ==>
              |Replay(audit, key, start)| == 1 && Rank(start) <= Rank(Replay(audit, key, start)[0])
  {
    if audit != [] { TrailStart(audit[..|audit| - 1], key, start); }
  }

  lemma {:induction false} TrailOrder(audit: seq<AuditEvent>, key: Key, start: Status, i: nat, j: nat)
    requires key.kind in {Plan, Attempt} && i < j < |audit| && Replay(audit, key, start) != []
    requires audit[i].key == key && audit[j].key == key
    ensures Rank(audit[i].after) <= Rank(audit[j].before)
    decreases |audit|
  {
    var init := audit[..|audit| - 1];
    if j < |audit| - 1 {
      assert init[i] == audit[i] && init[j] == audit[j];
      TrailOrder(init, key, start, i, j);
    } else {
      assert init[i] == audit[i];
      TrailRanks(init, key, start, i);
    }
  }

  function Changes(audit: seq<AuditEvent>, key: Key): nat {
    if audit == [] then 0
    else
      var last := audit[|audit| - 1];
      Changes(audit[..|audit| - 1], key) + if last.key == key && last.before != last.after then 1 else 0
  }

  lemma {:induction false} ChangesBounded(audit: seq<AuditEvent>, key: Key, start: Status)
    requires key.kind in {Plan, Attempt} && Replay(audit, key, start) != []
    ensures |Replay(audit, key, start)| == 1 && Rank(start) + Changes(audit, key) <= Rank(Replay(audit, key, start)[0])
  {
    if audit != [] {
      ChangesBounded(audit[..|audit| - 1], key, start);
    }
  }

  lemma {:induction false} LinkAt(audit: seq<AuditEvent>, key: Key, start: Status, i: nat)
    requires i < |audit| && audit[i].key == key && Replay(audit, key, start) != []
    ensures Replay(audit[..i], key, start) == [audit[i].before]
    ensures Replay(audit[..i + 1], key, start) == [audit[i].after]
    ensures RowAllows(key.kind, audit[i].before, audit[i].after)
    decreases |audit|
  {
    var n: nat := |audit| - 1;
    if i < n {
      assert audit[..n][i] == audit[i] && audit[..n][..i] == audit[..i] && audit[..n][..i + 1] == audit[..i + 1];
      LinkAt(audit[..n], key, start, i);
    } else {
      assert audit[..i + 1] == audit && audit[..n] == audit[..i];
    }
  }

  /** A row that has another status later on was moved to it in between. */
  lemma {:induction false} EnteredBetween(audit: seq<AuditEvent>, key: Key, start: Status, i: nat, j: nat, from: Status,
                                          to: Status)
    returns (k: nat)
    requires i <= j <= |audit| && from != to
    requires Replay(audit[..i], key, start) == [from] && Replay(audit[..j], key, start) == [to]
    ensures i <= k < j && audit[k].key == key && audit[k].after == to
    decreases j
  {
    k := j - 1;
    assert audit[..j][..k] == audit[..k] && audit[..j][k] == audit[k];
    if audit[k].key != key { k := EnteredBetween(audit, key, start, i, k, from, to); }
  }

  /** Whatever is attempted in whatever order: a plan that waited for an approval runs only after it was
      approved. */
  lemma NoRunWithoutApproval(actions: seq<Action>, key: Key, i: nat, j: nat) returns (k: nat)
    requires var audit := Run(actions).audit;
             && key in Run(actions).rows && key.kind in {Plan, Attempt}
             && i < j < |audit| && audit[i].key == key && audit[j].key == key
             && audit[i].after == AwaitingApproval && audit[j].before != Running && audit[j].after == Running
    ensures i < k < j && Run(actions).audit[k].key == key && Run(actions).audit[k].after == Approved
  {
    var s := Run(actions);
    var start := s.rows[key].created;
    RunConsistent(actions);
    LinkAt(s.audit, key, start, i);
    LinkAt(s.audit, key, start, j);
    TrailOrder(s.audit, key, start, i, j);
    RemediationComesFrom(s.audit[j].before, Running);
    k := EnteredBetween(s.audit, key, start, i + 1, j, AwaitingApproval, Approved);
  }

  predicate ChangesRow(e: AuditEvent, key: Key) {
    e.key == key && e.before != e.after
  }

  ghost function ChangePlaces(audit: seq<AuditEvent>, key: Key): set<int> {
    set i | 0 <= i < |audit| && ChangesRow(audit[i], key)
  }

  /** The status changes of a row are counted. */
  lemma {:induction false} ChangesCounts(audit: seq<AuditEvent>, key: Key)
    ensures Changes(audit, key) == |ChangePlaces(audit, key)|
  {
    if audit != [] {
      var n: nat := |audit| - 1;
      ChangesCounts(audit[..n], key);
      assert ChangePlaces(audit, key) == ChangePlaces(audit[..n], key) + if ChangesRow(audit[n], key) then {n} else {};
    }
  }

  /** Whatever is attempted in whatever order: each status of a remediation row is left by at most
      one move to another status, and at most seven such moves ever commit. */
  lemma EachStatusLeftOnce(actions: seq<Action>, key: Key)
    requires key in Run(actions).rows && key.kind in {Plan, Attempt}
    ensures var audit := Run(actions).audit;
            && Changes(audit, key) <= 7
            && forall i, j :: 0 <= i < j < |audit| && audit[i].key == key && audit[j].key == key
                 && audit[i].before != audit[i].after && audit[j].before != audit[j].after
                 ==> audit[i].before != audit[j].before && audit[i].after != audit[j].after
  {
    var s := Run(actions);
    RunConsistent(actions);
    ChangesBounded(s.audit, key, s.rows[key].created);
    forall i, j | 0 <= i < j < |s.audit| && s.audit[i].key == key && s.audit[j].key == key
                  && s.audit[i].before != s.audit[i].after && s.audit[j].before != s.audit[j].after
      ensures s.audit[i].before != s.audit[j].before && s.audit[i].after != s.audit[j].after
    {
      TrailRanks(s.audit, key, s.rows[key].created, i);
      TrailRanks(s.audit, key, s.rows[key].created, j);
      TrailOrder(s.audit, key, s.rows[key].created, i, j);
    }
  }

  /** Exactly when the unique idempotency key stops a legal move: when the same link of the same
      row was already announced. */
  lemma BlockedExactlyWhenAnnounced(actions: seq<Action>, m: Move)
    requires Accepted(m) && Matches(Run(actions).rows, m) && !m.suppressOutbox
    ensures var s := Run(actions);
            Succeeds(s, m) <==>
            !exists j :: 0 <= j < |s.outbox| && s.outbox[j].tenant == m.tenant && s.outbox[j].key == m.key
                         && s.outbox[j].before == m.from && s.outbox[j].after == m.to
  {
    var s := Run(actions);
    RunConsistent(actions);
    MovedStaysInTable(m);
    forall j | 0 <= j < |s.outbox| && s.outbox[j].tenant == m.tenant
        && s.outbox[j].idempotencyKey == EventOf(m).idempotencyKey
      ensures s.outbox[j].key == m.key && s.outbox[j].before == m.from && s.outbox[j].after == m.to
    {
      assert FromAudit(s, s.outbox[j]);
      KeyTextInjective(m.tenant, s.outbox[j].key, s.outbox[j].before, s.outbox[j].after, m.key, m.from, m.to);
    }
    forall j | 0 <= j < |s.outbox| && s.outbox[j].tenant == m.tenant && s.outbox[j].key == m.key
               && s.outbox[j].before == m.from && s.outbox[j].after == m.to
      ensures KeyTaken(s.outbox, EventOf(m))
    {
      assert FromAudit(s, s.outbox[j]);
    }
  }

  /** A remediation row is never stopped on its way to another status. */
  lemma RemediationNeverBlocked(actions: seq<Action>, m: Move)
    requires Accepted(m) && Matches(Run(actions).rows, m) && m.service.Remediations? && m.from != m.to
    ensures Succeeds(Run(actions), m)
  {
    var s := Run(actions);
    RunConsistent(actions);
    if !m.suppressOutbox {
      BlockedExactlyWhenAnnounced(actions, m);
      forall j | 0 <= j < |s.outbox| && s.outbox[j].key == m.key
        ensures !(s.outbox[j].before == m.from && s.outbox[j].after == m.to)
      {
        assert FromAudit(s, s.outbox[j]);
        var i :| 0 <= i < |s.audit| && s.audit[i].key == s.outbox[j].key
                 && s.audit[i].before == s.outbox[j].before && s.audit[i].after == s.outbox[j].after;
        TrailRanks(s.audit, m.key, s.rows[m.key].created, i);
      }
    }
  }

  // ---------------------------------------------------------------- what does not hold

  lemma {:induction false} OutboxGrows(past: seq<Action>, future: seq<Action>)
    ensures Run(past).outbox <= Run(past + future).outbox
  {
    if future == [] {
      assert past + future == past;
    } else {
      assert (past + future)[..|past + future| - 1] == past + future[..|future| - 1];
      OutboxGrows(past, future[..|future| - 1]);
    }
  }

  /** A move that was announced can never be announced again, even when its row comes back. */
  lemma AnnouncedOnlyOnce(past: seq<Action>, m: Move, future: seq<Action>)
    requires Succeeds(Run(past), m) && !m.suppressOutbox
    ensures !Succeeds(Run(past + [Try(m)] + future), m)
  {
    var now := past + [Try(m)];
    assert now[..|past|] == past;
    OutboxGrows(now, future);
    var at := |Run(past).outbox|;
    assert Run(now).outbox[at] == EventOf(m);
    assert Run(now + future).outbox[at] == EventOf(m);
  }

  const CASE := Key(Cluster, "c")
  const TO_WAITING := Move(Investigations, "t", CASE, Running, NeedsMoreData, "", "", false)
  const TO_RUNNING := Move(Investigations, "t", CASE, NeedsMoreData, Running, "", "", false)
  const CYCLE := [Insert(CASE, "t", Running, ""), Try(TO_WAITING), Try(TO_RUNNING)]

  /** An investigation that is running again after it needed more data cannot report that a second
      time: the move is legal and the row is there, but its announcement is taken. */
  lemma InvestigationStuck()
    ensures Accepted(TO_WAITING) && Matches(Run(CYCLE).rows, TO_WAITING) && !Succeeds(Run(CYCLE), TO_WAITING)
  {
    var start, first := Insert(CASE, "t", Running, ""), [Insert(CASE, "t", Running, ""), Try(TO_WAITING)];
    RunSnoc([], start);
    assert [] + [start] == [start];
    assert |KindText(Cluster)| == 21;
    RunSnoc([start], Try(TO_WAITING));
    assert [start] + [Try(TO_WAITING)] == first;
    assert Succeeds(Run([start]), TO_WAITING);
    BlockedExactlyWhenAnnounced(first, TO_RUNNING);
    assert Succeeds(Run(first), TO_RUNNING);
    RunSnoc(first, Try(TO_RUNNING));
    assert CYCLE == first + [Try(TO_RUNNING)] == [start] + [Try(TO_WAITING)] + [Try(TO_RUNNING)];
    AnnouncedOnlyOnce([start], TO_WAITING, [Try(TO_RUNNING)]);
  }

  /** A decided approval keeps its status for ever. */
  lemma {:induction false} DecisionIsFinal(past: seq<Action>, future: seq<Action>, key: Key)
    requires key in Run(past).rows && key.kind == Approval && Run(past).rows[key].status != Pending
    ensures key in Run(past + future).rows && Run(past + future).rows[key].status == Run(past).rows[key].status
  {
    if future == [] {
      assert past + future == past;
    } else {
      assert (past + future)[..|past + future| - 1] == past + future[..|future| - 1];
      DecisionIsFinal(past, future[..|future| - 1], key);
    }
  }

  /** But not its decider: the same decision by somebody else goes through and replaces the name,
      as often as nobody announces it. */
  lemma DeciderOverwritten(past: seq<Action>, key: Key, other: string)
    requires key in Run(past).rows && key.kind == Approval && other != "" && key.id != ""
               && Run(past).rows[key].tenant != ""
    ensures var row := Run(past).rows[key];
            var again := Move(Approvals, row.tenant, key, row.status, row.status, other, "", true);
            var now := Run(past + [Try(again)]);
            key in now.rows && now.rows[key] == row.(lockVersion := row.lockVersion + 1, decidedBy := other)
  {
    var row := Run(past).rows[key];
    var again := Move(Approvals, row.tenant, key, row.status, row.status, other, "", true);
    assert (past + [Try(again)])[..|past|] == past;
    assert |KindText(key.kind)| == 16;
    assert Succeeds(Run(past), again);
  }
}
