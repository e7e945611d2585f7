/** internal/domain: which status may follow which. A status is the text stored in the table;
    Other is any text the three relations do not know. */
module Domain {

  datatype Status =
    | Requested | Fingerprinted | Linked | Queued | Rejected | NeedsMoreData | Completed
    | Pending | Planning | AwaitingApproval | Approved | Denied | Running | Monitoring
    | Succeeded | Failed | RolledBack | Escalated | Expired
    | Other(name: string)

  predicate CanMoveInvestigation(from: Status, to: Status) {
    || from == to
    || match from
       case Requested => to in {Fingerprinted, Rejected}
       case Fingerprinted => to in {Linked, Queued, Running, Rejected}
       case Linked => to in {Running, Completed, Failed}
       case Queued => to in {Running, Rejected}
       case Running => to in {NeedsMoreData, Completed, Failed}
       case NeedsMoreData => to in {Running, Completed, Failed}
       case _ => false
  }

  predicate CanMoveRemediation(from: Status, to: Status) {
    || from == to
    || match from
       case Pending => to == Planning
       case Planning => to in {AwaitingApproval, Approved, Denied, Running, Escalated}
       case AwaitingApproval => to in {Approved, Denied}
       case Approved => to == Running
       case Running => to in {Monitoring, Succeeded, Failed, RolledBack, Escalated}
       case Monitoring => to in {Succeeded, Failed}
       case Failed => to in {RolledBack, Escalated}
       case _ => false
  }

  predicate CanMoveApproval(from: Status, to: Status) {
    from == to || (from == Pending && to in {Approved, Denied, Expired})
  }

  // ---------------------------------------------------------------- how long a run can be

  /** A level every remediation move to another status raises. */
  function Rank(s: Status): (r: nat)
    ensures r <= 7
  {
    match s
    case Pending => 0
    case Planning => 1
    case AwaitingApproval => 2
    case Approved => 3
    case Running => 4
    case Monitoring => 5
    case Failed => 6
    case _ => 7
  }

  lemma RemediationRises(from: Status, to: Status)
    requires CanMoveRemediation(from, to) && from != to
    ensures Rank(from) < Rank(to)
  {
  }

  /** The same for investigations, where running and needs_more_data share a level. */
  function Level(s: Status): nat {
    match s
    case Requested => 0
    case Fingerprinted => 1
    case Linked => 2
    case Queued => 2
    case Running => 3
    case NeedsMoreData => 3
    case _ => 4
  }

  /** The only way an investigation can come back to a status it left is between running and
      needs_more_data. */
  lemma InvestigationRises(from: Status, to: Status)
    requires CanMoveInvestigation(from, to) && from != to
    ensures Level(from) < Level(to) || {from, to} == {Running, NeedsMoreData}
  {
  }

  ghost predicate Trail(canMove: (Status, Status) -> bool, s: seq<Status>) {
    forall i :: 0 < i < |s| ==> s[i - 1] != s[i] && canMove(s[i - 1], s[i])
  }

  lemma {:induction false} TrailRises(s: seq<Status>, i: nat, j: nat)
    requires Trail(CanMoveRemediation, s) && i <= j < |s|
    ensures Rank(s[i]) + (j - i) <= Rank(s[j])
    decreases j
  {
    if i < j {
      TrailRises(s, i, j - 1);
      RemediationRises(s[j - 1], s[j]);
    }
  }

  const LONGEST := [Pending, Planning, AwaitingApproval, Approved, Running, Monitoring, Failed, RolledBack]

  /** A remediation changes its status at most seven times, never comes back to a status, and
      seven is reached. */
  lemma SevenMovesAtMost(s: seq<Status>)
    requires Trail(CanMoveRemediation, s)
    ensures |s| <= 8
    ensures forall i, j :: 0 <= i < j < |s| ==> s[i] != s[j]
    ensures Trail(CanMoveRemediation, LONGEST) && |LONGEST| == 8
  {
    if |s| > 8 { TrailRises(s, 0, 8); }
    forall i, j | 0 <= i < j < |s| ensures s[i] != s[j] { TrailRises(s, i, j); }
  }

  /** The remediation statuses that can never be left. */
  lemma WhereRemediationEnds(from: Status)
    ensures (forall to :: CanMoveRemediation(from, to) ==> to == from)
       <==> from !in {Pending, Planning, AwaitingApproval, Approved, Running, Monitoring, Failed}
  {
    assert CanMoveRemediation(Pending, Planning) && CanMoveRemediation(Planning, Approved);
    assert CanMoveRemediation(AwaitingApproval, Approved) && CanMoveRemediation(Approved, Running);
    assert CanMoveRemediation(Running, Failed) && CanMoveRemediation(Monitoring, Failed)
        && CanMoveRemediation(Failed, RolledBack);
  }

  // ---------------------------------------------------------------- what comes before a status

  /** The table read the other way: from where a remediation comes to each status, besides itself. */
  lemma RemediationComesFrom(from: Status, to: Status)
    ensures CanMoveRemediation(from, to) <==>
              || from == to
              || (to == Planning && from == Pending)
              || (to == AwaitingApproval && from == Planning)
              || (to == Approved && (from == Planning || from == AwaitingApproval))
              || (to == Denied && (from == Planning || from == AwaitingApproval))
              || (to == Running && (from == Planning || from == Approved))
              || (to == Monitoring && from == Running)
              || (to == Succeeded && (from == Running || from == Monitoring))
              || (to == Failed && (from == Running || from == Monitoring))
              || (to == RolledBack && (from == Running || from == Failed))
              || (to == Escalated && (from == Planning || from == Running || from == Failed))
  {
  }

  /** The same for investigations. */
  lemma InvestigationComesFrom(from: Status, to: Status)
    ensures CanMoveInvestigation(from, to) <==>
              || from == to
              || (to == Fingerprinted && from == Requested)
              || (to == Linked && from == Fingerprinted)
              || (to == Queued && from == Fingerprinted)
              || (to == Running && (from == Fingerprinted || from == Linked || from == Queued || from == NeedsMoreData))
              || (to == NeedsMoreData && from == Running)
              || (to == Completed && (from == Linked || from == Running || from == NeedsMoreData))
              || (to == Failed && (from == Linked || from == Running || from == NeedsMoreData))
              || (to == Rejected && (from == Requested || from == Fingerprinted || from == Queued))
  {
  }

  /** An approval is only ever decided, from pending. */
  lemma ApprovalComesFrom(from: Status, to: Status)
    ensures CanMoveApproval(from, to) <==>
              || from == to
              || (to == Approved && from == Pending)
              || (to == Denied && from == Pending)
              || (to == Expired && from == Pending)
  {
  }

  /** What waits for an approval runs only after the approval. */
  lemma {:induction false} ApprovalComesFirst(s: seq<Status>, i: nat, j: nat) returns (k: nat)
    requires Trail(CanMoveRemediation, s) && i < j < |s| && s[i] == AwaitingApproval && s[j] == Running
    ensures i < k < j && s[k] == Approved
  {
    assert CanMoveRemediation(s[i], s[i + 1]) && s[i] != s[i + 1];
    k := i + 1;
    if s[k] == Denied { assert s[k] != s[k + 1] && CanMoveRemediation(s[k], s[k + 1]); }
  }
}
