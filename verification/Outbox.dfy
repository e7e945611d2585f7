/** The outbox_events table of internal/store/postgres: due events are claimed in order, then
    marked published or failed. */
module Outbox {
  import opened Wrappers
  import opened Sorting

  datatype Status = Pending | Claimed | Published | Failed | Dead

  datatype Event = Event(tenant: string, status: Status, attempts: int, nextAttempt: int, created: int)

  type Table = map<string, Event>

  predicate Due(e: Event, tenant: string, now: int) {
    e.tenant == tenant && e.status in {Pending, Failed} && e.nextAttempt <= now
  }

  /** ORDER BY next_attempt_at, created_at. */
  predicate NotLater(a: Event, b: Event) {
    a.nextAttempt < b.nextAttempt || (a.nextAttempt == b.nextAttempt && a.created <= b.created)
  }

  function Take(e: Event): Event {
    e.(status := Claimed, attempts := e.attempts + 1)
  }

  function ClaimAll(t: Table, chosen: set<string>): Table {
    map id | id in t :: if id in chosen then Take(t[id]) else t[id]
  }

  /** The events one claim may take: due and not locked, as many as there are up to the limit,
      and none of the others sorts strictly before one of them. */
  ghost predicate IsClaim(t: Table, locked: set<string>, tenant: string, limit: nat, now: int, chosen: set<string>) {
    var open := set id | id in t && id !in locked && Due(t[id], tenant, now);
    && chosen <= open
    && |chosen| == (if |open| < limit then |open| else limit)
    && forall a, b :: a in chosen && b in open && b !in chosen ==> NotLater(t[a], t[b])
  }

  predicate Earlier(a: (string, Event), b: (string, Event)) {
    NotLater(a.1, b.1)
  }

  lemma {:induction false} CountIsSize(xs: seq<string>)
    requires forall i, j :: 0 <= i < j < |xs| ==> xs[i] != xs[j]
    ensures |set x | x in xs| == |xs|
  {
    if xs != [] {
      var init, last := xs[..|xs| - 1], xs[|xs| - 1];
      CountIsSize(init);
      assert (set x | x in xs) == (set x | x in init) + {last};
      assert last !in (set x | x in init);
    }
  }

  /** The due, unlocked events, each once and in order. */
  ghost predicate Lists(t: Table, locked: set<string>, tenant: string, now: int, due: seq<(string, Event)>) {
    && (forall i :: 0 <= i < |due| ==>
           due[i].0 in t && due[i].1 == t[due[i].0] && due[i].0 !in locked && Due(due[i].1, tenant, now))
    && (forall id :: id in t && id !in locked && Due(t[id], tenant, now) ==> (id, t[id]) in due)
    && (forall i, j :: 0 <= i < j < |due| ==> due[i].0 != due[j].0)
  }

  function Names(due: seq<(string, Event)>): seq<string> {
    seq(|due|, i requires 0 <= i < |due| => due[i].0)
  }

  lemma ReorderedLists(t: Table, locked: set<string>, tenant: string, now: int, found: seq<(string, Event)>,
                       due: seq<(string, Event)>)
    requires Lists(t, locked, tenant, now, found) && multiset(due) == multiset(found)
    ensures Lists(t, locked, tenant, now, due)
  {
    SameElements(due, found);
    DistinctCounts(found);
    forall i, j | 0 <= i < j < |due| ensures due[i].0 != due[j].0 {
      CountsDistinct(due, i, j);
      assert due[i] in found && due[j] in found;
    }
    forall i | 0 <= i < |due|
      ensures due[i].0 in t && due[i].1 == t[due[i].0] && due[i].0 !in locked && Due(due[i].1, tenant, now)
    {
      assert due[i] in found;
    }
  }

  lemma AllNames(t: Table, locked: set<string>, tenant: string, now: int, due: seq<(string, Event)>)
    requires Lists(t, locked, tenant, now, due)
    ensures (set id | id in t && id !in locked && Due(t[id], tenant, now)) == set id | id in Names(due)
    ensures |set id | id in Names(due)| == |due|
  {
    var names := Names(due);
    forall id | id in t && id !in locked && Due(t[id], tenant, now) ensures id in names {
      var i :| 0 <= i < |due| && due[i] == (id, t[id]);
      assert names[i] == id;
    }
    CountIsSize(names);
  }

  lemma FirstComeFirst(t: Table, locked: set<string>, tenant: string, now: int, due: seq<(string, Event)>, n: nat,
                       a: string, b: string)
    requires Lists(t, locked, tenant, now, due) && SortedBy(due, Earlier) && n <= |due|
    requires a in Names(due)[..n] && b in Names(due)[n..]
    ensures a in t && b in t && NotLater(t[a], t[b])
  {
    var i :| 0 <= i < n && Names(due)[..n][i] == a;
    var j :| 0 <= j < |due| - n && Names(due)[n..][j] == b;
    assert due[i].0 == a && due[n + j].0 == b && Earlier(due[i], due[n + j]);
  }

  /** The first of the ordered events are a claim. */
  lemma FirstAreAClaim(t: Table, locked: set<string>, tenant: string, limit: nat, now: int, due: seq<(string, Event)>,
                       n: nat)
    requires Lists(t, locked, tenant, now, due) && SortedBy(due, Earlier)
    requires n == if |due| < limit then |due| else limit
    ensures IsClaim(t, locked, tenant, limit, now, set id | id in Names(due)[..n])
  {
    var names := Names(due);
    AllNames(t, locked, tenant, now, due);
    CountIsSize(names[..n]);
    assert names == names[..n] + names[n..];
    forall a, b | a in names[..n] && b in names[n..] ensures NotLater(t[a], t[b]) {
      FirstComeFirst(t, locked, tenant, now, due, n, a, b);
    }
  }

  /** What a claim takes, in terms of the columns: only due events of the tenant, all of them when there
      are fewer than the limit, and else none that comes after one left behind. */
  lemma ClaimInFields(t: Table, locked: set<string>, tenant: string, limit: nat, now: int, chosen: set<string>)
    requires IsClaim(t, locked, tenant, limit, now, chosen)
    ensures |chosen| <= limit
    ensures forall id :: id in chosen ==>
              && id in t && id !in locked && t[id].tenant == tenant && t[id].nextAttempt <= now
              && (t[id].status == Pending || t[id].status == Failed)
    ensures |chosen| < limit ==>
              forall id | && id in t && id !in locked && t[id].tenant == tenant && t[id].nextAttempt <= now
                          && (t[id].status == Pending || t[id].status == Failed) :: id in chosen
    ensures forall a, id | && a in chosen && id in t && id !in locked && id !in chosen
                           && t[id].tenant == tenant && t[id].nextAttempt <= now
                           && (t[id].status == Pending || t[id].status == Failed) ::
              || t[a].nextAttempt < t[id].nextAttempt
              || (t[a].nextAttempt == t[id].nextAttempt && t[a].created <= t[id].created)
  {
    var open := set id | id in t && id !in locked && Due(t[id], tenant, now);
    if |chosen| < limit { WholeSet(chosen, open); }
  }

  class OutboxTable {
    var rows: Table

    /** The inner SELECT of ClaimDue before its LIMIT. */
    method DueInOrder(locked: set<string>, tenant: string, now: int) returns (due: seq<(string, Event)>)
      ensures Lists(rows, locked, tenant, now, due) && SortedBy(due, Earlier)
    {
      var found: seq<(string, Event)>, left := [], rows.Keys;
      while left != {}
        invariant left <= rows.Keys
        invariant forall i :: 0 <= i < |found| ==>
                    found[i].0 in rows.Keys - left && found[i].1 == rows[found[i].0] && found[i].0 !in locked
                        && Due(found[i].1, tenant, now)
        invariant forall id :: id in rows.Keys - left && id !in locked && Due(rows[id], tenant, now) ==>
                    (id, rows[id]) in found
        invariant forall i, j :: 0 <= i < j < |found| ==> found[i].0 != found[j].0
        decreases |left|
      {
        var id :| id in left;
        if id !in locked && Due(rows[id], tenant, now) { found := found + [(id, rows[id])]; }
        left := left - {id};
      }
      due := Sort(found, Earlier);
      ReorderedLists(rows, locked, tenant, now, found, due);
    }

    /** ClaimDue. A negative limit is an error of the database. */
    method ClaimDue(locked: set<string>, tenant: string, limit: int, now: int) returns (claimed: Option<set<string>>)
      modifies this
      ensures claimed.None? <==> limit < 0
      ensures claimed.None? ==> rows == old(rows)
      ensures claimed.Some? ==>
                && IsClaim(old(rows), locked, tenant, limit, now, claimed.value)
                && rows == ClaimAll(old(rows), claimed.value)
      ensures claimed.Some? ==> |claimed.value| <= limit
      ensures claimed.Some? ==> forall id :: id in claimed.value ==>
                && id in old(rows) && id !in locked
                && old(rows)[id].tenant == tenant && old(rows)[id].nextAttempt <= now
                && (old(rows)[id].status == Pending || old(rows)[id].status == Failed)
      ensures claimed.Some? && |claimed.value| < limit ==>
                forall id | && id in old(rows) && id !in locked
                            && old(rows)[id].tenant == tenant && old(rows)[id].nextAttempt <= now
                            && (old(rows)[id].status == Pending || old(rows)[id].status == Failed) ::
                  id in claimed.value
      ensures claimed.Some? ==>
                forall a, id | && a in claimed.value && id in old(rows) && id !in locked && id !in claimed.value
                               && old(rows)[id].tenant == tenant && old(rows)[id].nextAttempt <= now
                               && (old(rows)[id].status == Pending || old(rows)[id].status == Failed) ::
                  || old(rows)[a].nextAttempt < old(rows)[id].nextAttempt
                  || (old(rows)[a].nextAttempt == old(rows)[id].nextAttempt
                      && old(rows)[a].created <= old(rows)[id].created)
      ensures claimed.Some? ==> rows.Keys == old(rows).Keys
      ensures claimed.Some? ==> forall id :: id in rows && id !in claimed.value ==> rows[id] == old(rows)[id]
      ensures claimed.Some? ==> forall id :: id in claimed.value ==>
                rows[id] == old(rows)[id].(status := Claimed, attempts := old(rows)[id].attempts + 1)
    {
      if limit < 0 { return None; }
      var due := DueInOrder(locked, tenant, now);
      var n := if |due| < limit then |due| else limit;
      FirstAreAClaim(rows, locked, tenant, limit, now, due, n);
      var chosen := set id | id in Names(due)[..n];
      ClaimInFields(rows, locked, tenant, limit, now, chosen);
      rows := ClaimAll(rows, chosen);
      claimed := Some(chosen);
    }

    method MarkPublished(tenant: string, id: string) returns (ok: bool)
      modifies this
      ensures ok <==> Owned(old(rows), tenant, id)
      ensures rows == Do(old(rows), Publish(tenant, id))
      ensures ok <==> id in old(rows) && old(rows)[id].tenant == tenant
      ensures rows == if ok then old(rows)[id := old(rows)[id].(status := Published)] else old(rows)
    {
      ok := id in rows && rows[id].tenant == tenant;
      if ok { rows := rows[id := rows[id].(status := Published)]; }
    }

    method MarkFailed(tenant: string, id: string, nextAttempt: int) returns (ok: bool)
      modifies this
      ensures ok <==> Owned(old(rows), tenant, id)
      ensures rows == Do(old(rows), Fail(tenant, id, nextAttempt))
      ensures ok <==> id in old(rows) && old(rows)[id].tenant == tenant
      ensures rows == if ok then old(rows)[id := old(rows)[id].(status := Failed, nextAttempt := nextAttempt)]
                      else old(rows)
    {
      ok := id in rows && rows[id].tenant == tenant;
      if ok { rows := rows[id := rows[id].(status := Failed, nextAttempt := nextAttempt)]; }
    }
  }

  // ---------------------------------------------------------------- runs

  predicate Owned(t: Table, tenant: string, id: string) {
    id in t && t[id].tenant == tenant
  }

  /** One statement. A claim names the events it took, which ties leave open. */
  datatype Operation =
    | Append(id: string, event: Event)
    | Claim(locked: set<string>, tenant: string, limit: nat, now: int, chosen: set<string>)
    | Publish(tenant: string, id: string)
    | Fail(tenant: string, id: string, nextAttempt: int)

  function Do(t: Table, op: Operation): Table {
    match op
    case Append(id, e) => if id in t then t else t[id := e]
    case Claim(_, _, _, _, chosen) => ClaimAll(t, chosen)
    case Publish(tenant, id) => if Owned(t, tenant, id) then t[id := t[id].(status := Published)] else t
    case Fail(tenant, id, next) =>
      if Owned(t, tenant, id) then t[id := t[id].(status := Failed, nextAttempt := next)] else t
  }

  function After(ops: seq<Operation>): Table {
    if ops == [] then map[] else Do(After(ops[..|ops| - 1]), ops[|ops| - 1])
  }

  function Before(ops: seq<Operation>, i: nat): Table
    requires i <= |ops|
  {
    After(ops[..i])
  }

  ghost predicate LegalAt(ops: seq<Operation>, i: nat)
    requires i < |ops|
  {
    var op := ops[i];
    op.Claim? ==> IsClaim(Before(ops, i), op.locked, op.tenant, op.limit, op.now, op.chosen)
  }

  /** Every claim of the run took what a claim may take. */
  ghost predicate Legal(ops: seq<Operation>) {
    forall i :: 0 <= i < |ops| ==> LegalAt(ops, i)
  }

  predicate ClaimsAt(ops: seq<Operation>, i: nat, id: string)
    requires i < |ops|
  {
    ops[i].Claim? && id in ops[i].chosen
  }

  predicate FailsAt(ops: seq<Operation>, i: nat, id: string)
    requires i < |ops|
  {
    ops[i].Fail? && ops[i].id == id && Owned(Before(ops, i), ops[i].tenant, id)
  }

  lemma BeforeNext(ops: seq<Operation>, i: nat)
    requires i < |ops|
    ensures Before(ops, i + 1) == Do(Before(ops, i), ops[i])
  {
    assert ops[..i + 1][..i] == ops[..i];
  }

  ghost predicate NoFail(ops: seq<Operation>, i: nat, j: nat, id: string)
    requires j <= |ops|
  {
    forall k :: i <= k < j ==> !FailsAt(ops, k, id)
  }

  /** Once claimed or published, an event is claimed or published until it is marked failed. */
  lemma {:induction false} OutOfReach(ops: seq<Operation>, i: nat, j: nat, id: string)
    requires Legal(ops) && i <= j <= |ops| && NoFail(ops, i, j, id)
    requires id in Before(ops, i) && Before(ops, i)[id].status in {Claimed, Published}
    ensures id in Before(ops, j) && Before(ops, j)[id].status in {Claimed, Published}
    decreases j
  {
    if i < j {
      OutOfReach(ops, i, j - 1, id);
      BeforeNext(ops, j - 1);
      assert LegalAt(ops, j - 1) && !FailsAt(ops, j - 1, id);
    }
  }

  lemma ClaimedAfter(ops: seq<Operation>, i: nat, id: string)
    requires Legal(ops) && i < |ops| && ClaimsAt(ops, i, id)
    ensures id in Before(ops, i) && Before(ops, i)[id].status in {Pending, Failed}
    ensures id in Before(ops, i + 1) && Before(ops, i + 1)[id].status == Claimed
  {
    assert LegalAt(ops, i);
    BeforeNext(ops, i);
  }

  /** Between two claims of one event it was marked failed. */
  lemma ClaimsAreSeparated(ops: seq<Operation>, i: nat, j: nat, id: string)
    requires Legal(ops) && i < j < |ops| && ClaimsAt(ops, i, id) && ClaimsAt(ops, j, id)
    ensures exists k :: i < k < j && FailsAt(ops, k, id)
  {
    ClaimedAfter(ops, i, id);
    ClaimedAfter(ops, j, id);
    if NoFail(ops, i + 1, j, id) { OutOfReach(ops, i + 1, j, id); }
  }

  /** A published event is claimed again only after somebody marks it failed. */
  lemma PublishedStays(ops: seq<Operation>, i: nat, j: nat, id: string)
    requires Legal(ops) && i < j < |ops| && ops[i].Publish? && ops[i].id == id
               && Owned(Before(ops, i), ops[i].tenant, id)
    requires ClaimsAt(ops, j, id)
    ensures exists k :: i < k < j && FailsAt(ops, k, id)
  {
    BeforeNext(ops, i);
    ClaimedAfter(ops, j, id);
    if NoFail(ops, i + 1, j, id) { OutOfReach(ops, i + 1, j, id); }
  }

  lemma {:induction false} WaitingSince(ops: seq<Operation>, i: nat, j: nat, id: string)
    requires Legal(ops) && i < j <= |ops| && FailsAt(ops, i, id) && NoFail(ops, i + 1, j, id)
    ensures id in Before(ops, j) && Before(ops, j)[id].nextAttempt == ops[i].nextAttempt
    decreases j
  {
    BeforeNext(ops, j - 1);
    if i < j - 1 {
      WaitingSince(ops, i, j - 1, id);
      assert !FailsAt(ops, j - 1, id);
    }
  }

  /** An event marked failed is not claimed before the time it was given for its next attempt. */
  lemma FailedEventsWait(ops: seq<Operation>, i: nat, j: nat, id: string)
    requires Legal(ops) && i < j < |ops| && FailsAt(ops, i, id) && NoFail(ops, i + 1, j, id) && ClaimsAt(ops, j, id)
    ensures ops[i].nextAttempt <= ops[j].now
  {
    WaitingSince(ops, i, j, id);
    assert LegalAt(ops, j);
  }

  lemma {:induction false} TenantStays(ops: seq<Operation>, i: nat, j: nat, id: string)
    requires i < j <= |ops| && ops[i].Append? && ops[i].id == id && id !in Before(ops, i)
    ensures id in Before(ops, j) && Before(ops, j)[id].tenant == ops[i].event.tenant
    decreases j
  {
    BeforeNext(ops, j - 1);
    if i < j - 1 { TenantStays(ops, i, j - 1, id); }
  }

  /** Only the tenant it was appended for ever claims an event. */
  lemma ClaimsAreOwn(ops: seq<Operation>, i: nat, j: nat, id: string)
    requires Legal(ops) && i < j < |ops| && ops[i].Append? && ops[i].id == id && id !in Before(ops, i)
    requires ClaimsAt(ops, j, id)
    ensures ops[j].tenant == ops[i].event.tenant
  {
    TenantStays(ops, i, j, id);
    assert LegalAt(ops, j);
  }

  function Claims(ops: seq<Operation>, i: nat, j: nat, id: string): nat
    requires i <= j <= |ops|
    decreases j
  {
    if i == j then 0 else Claims(ops, i, j - 1, id) + if ClaimsAt(ops, j - 1, id) then 1 else 0
  }

  /** The attempt count is the one the event was appended with plus the claims since. */
  lemma {:induction false} AttemptsCountClaims(ops: seq<Operation>, i: nat, j: nat, id: string)
    requires Legal(ops) && i < j <= |ops| && ops[i].Append? && ops[i].id == id && id !in Before(ops, i)
    ensures id in Before(ops, j) && Before(ops, j)[id].attempts == ops[i].event.attempts + Claims(ops, i + 1, j, id)
    decreases j
  {
    BeforeNext(ops, j - 1);
    if i < j - 1 {
      AttemptsCountClaims(ops, i, j - 1, id);
    }
  }

  const ONE := Event("t", Pending, 0, 0, 0)
  const AGAIN := [Append("e", ONE), Claim({}, "t", 1, 5, {"e"}), Publish("t", "e"), Fail("t", "e", 6),
                  Claim({}, "t", 1, 7, {"e"})]

  /** Marking does not look at the status: an event that was published and then reported as
      failed is claimed and published a second time. */
  lemma PublishedTwice()
    ensures Legal(AGAIN) && ClaimsAt(AGAIN, 1, "e") && ClaimsAt(AGAIN, 4, "e")
    ensures "e" in Before(AGAIN, 3) && Before(AGAIN, 3)["e"].status == Published
  {
    assert AGAIN[..0] == [];
    BeforeNext(AGAIN, 0);
    BeforeNext(AGAIN, 1);
    BeforeNext(AGAIN, 2);
    BeforeNext(AGAIN, 3);
    OnlyOne(Before(AGAIN, 1), 5);
    OnlyOne(Before(AGAIN, 4), 7);
    assert LegalAt(AGAIN, 1) && LegalAt(AGAIN, 4);
  }

  lemma OnlyOne(t: Table, now: int)
    requires t.Keys == {"e"} && Due(t["e"], "t", now)
    ensures IsClaim(t, {}, "t", 1, now, {"e"})
  {
    assert (set id | id in t && id !in {} && Due(t[id], "t", now)) == {"e"};
  }
}
