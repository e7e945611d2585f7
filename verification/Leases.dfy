/** The workflow_leases table of internal/store/postgres: one row per leased resource, with a
    fencing token that rises with every grant. */
module Leases {
  import opened Wrappers

  datatype Resource = Resource(kind: string, id: string)

  datatype Lease = Lease(owner: string, token: nat, expires: int)

  type Table = map<Resource, Lease>

  datatype Operation =
    | Acquire(resource: Resource, owner: string, expires: int, now: int)
    | Renew(resource: Resource, owner: string, token: nat, now: int, ttl: int)
    | Release(resource: Resource, owner: string, token: nat)

  /** The row the statement leaves and returns; a refused statement leaves the table alone. */
  function Granted(t: Table, op: Operation): Option<Lease> {
    match op
    case Acquire(r, owner, expires, now) =>
      if r !in t then Some(Lease(owner, 1, expires))
      else if t[r].expires <= now || t[r].owner == owner then Some(Lease(owner, t[r].token + 1, expires))
      else None
    case Renew(r, owner, token, now, ttl) =>
      if r in t && t[r].owner == owner && t[r].token == token && t[r].expires > now
          then Some(Lease(owner, token, now + ttl))
      else None
    case Release(_, _, _) => None
  }

  predicate Releases(t: Table, op: Operation) {
    op.Release? && op.resource in t && t[op.resource].owner == op.owner && t[op.resource].token == op.token
  }

  function Step(t: Table, op: Operation): Table {
    if Releases(t, op) then t - {op.resource}
    else if Granted(t, op).Some? then t[op.resource := Granted(t, op).value]
    else t
  }

  class LeaseTable {
    var rows: Table

    /** INSERT ... ON CONFLICT DO UPDATE ... WHERE expired or own. */
    method Acquire(resource: Resource, owner: string, expires: int, now: int) returns (lease: Option<Lease>)
      modifies this
      ensures lease == Granted(old(rows), Operation.Acquire(resource, owner, expires, now))
      ensures rows == Step(old(rows), Operation.Acquire(resource, owner, expires, now))
      ensures lease.Some? <==>
                resource in old(rows) ==> old(rows)[resource].expires <= now || old(rows)[resource].owner == owner
      ensures lease.Some? ==> lease.value.owner == owner && lease.value.expires == expires
      ensures lease.Some? ==> lease.value.token == if resource in old(rows) then old(rows)[resource].token + 1 else 1
      ensures rows == if lease.Some? then old(rows)[resource := lease.value] else old(rows)
    {
      if resource !in rows {
        rows := rows[resource := Lease(owner, 1, expires)];
      } else if rows[resource].expires <= now || rows[resource].owner == owner {
        rows := rows[resource := Lease(owner, rows[resource].token + 1, expires)];
      } else {
        return None;
      }
      lease := Some(rows[resource]);
    }

    method Renew(resource: Resource, owner: string, token: nat, now: int, ttl: int) returns (lease: Option<Lease>)
      modifies this
      ensures lease == Granted(old(rows), Operation.Renew(resource, owner, token, now, ttl))
      ensures rows == Step(old(rows), Operation.Renew(resource, owner, token, now, ttl))
      ensures lease.Some? <==>
                && resource in old(rows) && old(rows)[resource].owner == owner
                && old(rows)[resource].token == token && now < old(rows)[resource].expires
      ensures lease.Some? ==> lease.value == Lease(owner, token, now + ttl)
      ensures rows == if lease.Some? then old(rows)[resource := lease.value] else old(rows)
    {
      if resource !in rows { return None; }
      var row := rows[resource];
      if row.owner != owner || row.token != token || row.expires <= now { return None; }
      rows := rows[resource := row.(expires := now + ttl)];
      lease := Some(rows[resource]);
    }

    method Release(resource: Resource, owner: string, token: nat) returns (ok: bool)
      modifies this
      ensures ok <==> Releases(old(rows), Operation.Release(resource, owner, token))
      ensures rows == Step(old(rows), Operation.Release(resource, owner, token))
      ensures ok <==> resource in old(rows) && old(rows)[resource].owner == owner && old(rows)[resource].token == token
      ensures rows == if ok then old(rows) - {resource} else old(rows)
    {
      ok := resource in rows && rows[resource].owner == owner && rows[resource].token == token;
      if ok { rows := rows - {resource}; }
    }
  }

  // ---------------------------------------------------------------- runs

  function After(ops: seq<Operation>): Table {
    if ops == [] then map[] else Step(After(ops[..|ops| - 1]), ops[|ops| - 1])
  }

  /** The table just before operation i. */
  function Before(ops: seq<Operation>, i: nat): Table
    requires i <= |ops|
  {
    After(ops[..i])
  }

  lemma BeforeNext(ops: seq<Operation>, i: nat)
    requires i < |ops|
    ensures Before(ops, i + 1) == Step(Before(ops, i), ops[i])
  {
    assert ops[..i + 1][..i] == ops[..i];
  }

  predicate GrantAt(ops: seq<Operation>, i: nat, r: Resource)
    requires i < |ops|
  {
    ops[i].Acquire? && ops[i].resource == r && Granted(Before(ops, i), ops[i]).Some?
  }

  predicate ReleaseAt(ops: seq<Operation>, i: nat, r: Resource)
    requires i < |ops|
  {
    ops[i].resource == r && Releases(Before(ops, i), ops[i])
  }

  /** What the caller of a successful Acquire is told. */
  function LeaseAt(ops: seq<Operation>, i: nat, r: Resource): Lease
    requires i < |ops| && GrantAt(ops, i, r)
  {
    Granted(Before(ops, i), ops[i]).value
  }

  ghost predicate NoRelease(ops: seq<Operation>, i: nat, j: nat, r: Resource)
    requires j <= |ops|
  {
    forall k :: i <= k < j ==> !ReleaseAt(ops, k, r)
  }

  /** The grants among the operations i, ..., j - 1. */
  function Grants(ops: seq<Operation>, i: nat, j: nat, r: Resource): nat
    requires i <= j <= |ops|
    decreases j
  {
    if i == j then 0 else Grants(ops, i, j - 1, r) + if GrantAt(ops, j - 1, r) then 1 else 0
  }

  /** As long as nobody releases it the row stays, and its token counts the grants. */
  lemma {:induction false} TokenCounts(ops: seq<Operation>, i: nat, j: nat, r: Resource)
    requires i <= j <= |ops| && r in Before(ops, i) && NoRelease(ops, i, j, r)
    ensures r in Before(ops, j) && Before(ops, j)[r].token == Before(ops, i)[r].token + Grants(ops, i, j, r)
    decreases j
  {
    if i < j {
      TokenCounts(ops, i, j - 1, r);
      BeforeNext(ops, j - 1);
      assert !ReleaseAt(ops, j - 1, r);
    }
  }

  lemma {:induction false} GrantCounted(ops: seq<Operation>, i: nat, k: nat, j: nat, r: Resource)
    requires i <= k < j <= |ops| && GrantAt(ops, k, r)
    ensures Grants(ops, i, j, r) >= 1
    decreases j
  {
    if k < j - 1 { GrantCounted(ops, i, k, j - 1, r); }
  }

  lemma AfterGrant(ops: seq<Operation>, i: nat, r: Resource)
    requires i < |ops| && GrantAt(ops, i, r)
    ensures r in Before(ops, i + 1) && Before(ops, i + 1)[r] == LeaseAt(ops, i, r)
  {
    BeforeNext(ops, i);
  }

  /** Tokens of grants with no release in between rise by one with every grant. */
  lemma TokensRise(ops: seq<Operation>, i: nat, j: nat, r: Resource)
    requires i < j < |ops| && GrantAt(ops, i, r) && GrantAt(ops, j, r) && NoRelease(ops, i, j, r)
    ensures LeaseAt(ops, j, r).token == LeaseAt(ops, i, r).token + Grants(ops, i + 1, j, r) + 1
  {
    AfterGrant(ops, i, r);
    TokenCounts(ops, i + 1, j, r);
  }

  /** A lease that was superseded by a later grant can neither be renewed nor released. */
  lemma SupersededIsPowerless(ops: seq<Operation>, i: nat, j: nat, k: nat, r: Resource)
    requires i < j < k < |ops| && GrantAt(ops, i, r) && GrantAt(ops, j, r) && NoRelease(ops, i, k, r)
    requires ops[k].resource == r && !ops[k].Acquire?
    requires ops[k].owner == LeaseAt(ops, i, r).owner && ops[k].token == LeaseAt(ops, i, r).token
    ensures Granted(Before(ops, k), ops[k]).None? && !Releases(Before(ops, k), ops[k])
  {
    AfterGrant(ops, i, r);
    TokenCounts(ops, i + 1, k, r);
    GrantCounted(ops, i + 1, j, k, r);
  }

  /** The expiry last told to any holder of r by the first j operations. */
  function LastTold(ops: seq<Operation>, j: nat, r: Resource): int
    requires j <= |ops|
  {
    if j == 0 then 0
    else if ops[j - 1].resource == r && Granted(Before(ops, j - 1), ops[j - 1]).Some?
    then Granted(Before(ops, j - 1), ops[j - 1]).value.expires
    else LastTold(ops, j - 1, r)
  }

  lemma {:induction false} RowIsWhatWasTold(ops: seq<Operation>, j: nat, r: Resource)
    requires j <= |ops| && r in Before(ops, j)
    ensures Before(ops, j)[r].expires == LastTold(ops, j, r)
  {
    assert ops[..0] == [];
    if j > 0 {
      BeforeNext(ops, j - 1);
      if r in Before(ops, j - 1) { RowIsWhatWasTold(ops, j - 1, r); }
    }
  }

  /** Since the latest grant nobody else has been granted anything. */
  lemma {:induction false} HolderStays(ops: seq<Operation>, i: nat, j: nat, r: Resource)
    requires i < j <= |ops| && GrantAt(ops, i, r) && NoRelease(ops, i, j, r) && Grants(ops, i + 1, j, r) == 0
    ensures r in Before(ops, j) && Before(ops, j)[r].owner == LeaseAt(ops, i, r).owner
    decreases j
  {
    if j == i + 1 {
      AfterGrant(ops, i, r);
    } else {
      HolderStays(ops, i, j - 1, r);
      BeforeNext(ops, j - 1);
      assert !ReleaseAt(ops, j - 1, r);
    }
  }

  /** A grant to another owner than the latest one's: unless that lease was released, the time is
      past every expiry the holder was last told. */
  lemma OtherOwnersWait(ops: seq<Operation>, i: nat, j: nat, r: Resource)
    requires i < j < |ops| && GrantAt(ops, i, r) && GrantAt(ops, j, r) && Grants(ops, i + 1, j, r) == 0
    requires LeaseAt(ops, i, r).owner != LeaseAt(ops, j, r).owner
    ensures NoRelease(ops, i, j, r) ==> LastTold(ops, j, r) <= ops[j].now
  {
    if NoRelease(ops, i, j, r) {
      HolderStays(ops, i, j, r);
      RowIsWhatWasTold(ops, j, r);
    }
  }

  /** The expiry that the caller of operation i asks for. */
  function AskedExpiry(op: Operation): int
    requires !op.Release?
  {
    match op
    case Acquire(_, _, expires, _) => expires
    case Renew(_, _, _, now, ttl) => now + ttl
  }

  predicate WorksAt(ops: seq<Operation>, i: nat, r: Resource)
    requires i < |ops|
  {
    ops[i].resource == r && Granted(Before(ops, i), ops[i]).Some?
  }

  /** Operation k leaves the holder of r alone: it is no release that works, it is no grant or renewal of
      the holder, and anybody else who asks for r asks before this expiry. */
  predicate LeavesHolder(ops: seq<Operation>, k: nat, r: Resource, owner: string, expiry: int)
    requires k < |ops|
  {
    && !ReleaseAt(ops, k, r)
    && (WorksAt(ops, k, r) ==> ops[k].owner != owner)
    && (ops[k].Acquire? && ops[k].resource == r && ops[k].owner != owner ==> ops[k].now < expiry)
  }

  lemma {:induction false} PromiseHolds(ops: seq<Operation>, i: nat, j: nat, r: Resource)
    requires i < j <= |ops| && WorksAt(ops, i, r)
    requires forall k :: i < k < j ==> LeavesHolder(ops, k, r, ops[i].owner, AskedExpiry(ops[i]))
    ensures r in Before(ops, j)
    ensures Before(ops, j)[r].owner == ops[i].owner && Before(ops, j)[r].expires == AskedExpiry(ops[i])
    decreases j
  {
    var k: nat := j - 1;
    BeforeNext(ops, k);
    if k > i {
      PromiseHolds(ops, i, k, r);
      assert LeavesHolder(ops, k, r, ops[i].owner, AskedExpiry(ops[i]));
    }
  }

  /** What a working Acquire or Renew asked for is kept: without a release, and without a later grant or
      renewal of the holder, another owner gets the resource exactly when it asks at that expiry or
      later; before it the row stays with the holder. */
  lemma PromisesAreKept(ops: seq<Operation>, i: nat, j: nat, r: Resource)
    requires i < j < |ops| && WorksAt(ops, i, r)
    requires forall k :: i < k < j ==> LeavesHolder(ops, k, r, ops[i].owner, AskedExpiry(ops[i]))
    requires ops[j].Acquire? && ops[j].resource == r && ops[j].owner != ops[i].owner
    ensures var after := Before(ops, j + 1);
            && r in after
            && (ops[i].Acquire? ==> (after[r].owner == ops[i].owner <==> ops[j].now < ops[i].expires))
            && (ops[i].Renew? ==> (after[r].owner == ops[i].owner <==> ops[j].now < ops[i].now + ops[i].ttl))
            && (after[r].owner == ops[i].owner
                || (after[r].owner == ops[j].owner && after[r].expires == ops[j].expires))
  {
    PromiseHolds(ops, i, j, r);
    BeforeNext(ops, j);
  }

  /** A lease value never works while the row is somebody else's, and it works after a later
      grant only when the row was released in between. */
  lemma WorkingLease(ops: seq<Operation>, i: nat, k: nat, r: Resource)
    requires i < k < |ops| && GrantAt(ops, i, r) && ops[k].resource == r && !ops[k].Acquire?
    requires ops[k].owner == LeaseAt(ops, i, r).owner && ops[k].token == LeaseAt(ops, i, r).token
    requires Granted(Before(ops, k), ops[k]).Some? || Releases(Before(ops, k), ops[k])
    ensures r in Before(ops, k) && Before(ops, k)[r].owner == LeaseAt(ops, i, r).owner
    ensures Grants(ops, i + 1, k, r) == 0 || !NoRelease(ops, i, k, r)
  {
    if NoRelease(ops, i, k, r) {
      AfterGrant(ops, i, r);
      TokenCounts(ops, i + 1, k, r);
    }
  }

  // ---------------------------------------------------------------- what does not hold

  const DOOR := Resource("door", "1")
  const REUSE := [Acquire(DOOR, "a", 10, 0), Release(DOOR, "a", 1), Acquire(DOOR, "a", 20, 5),
                  Renew(DOOR, "a", 1, 15, 10)]

  /** Across a release the token starts again, so a lease of the same owner from before the
      release renews the one granted after it. */
  lemma TokenReused()
    ensures GrantAt(REUSE, 0, DOOR) && GrantAt(REUSE, 2, DOOR)
    ensures LeaseAt(REUSE, 0, DOOR).token == LeaseAt(REUSE, 2, DOOR).token
    ensures Granted(Before(REUSE, 3), REUSE[3]).Some?
  {
    assert REUSE[..0] == [];
    BeforeNext(REUSE, 0);
    BeforeNext(REUSE, 1);
    BeforeNext(REUSE, 2);
  }

  /** A second Acquire of the holder may shorten its lease: another owner then gets the resource
      before the expiry the first grant promised. */
  lemma OwnerShortens(owner: string, other: string, e1: int, e2: int, now: int)
    requires owner != other && e2 <= now < e1
    ensures var ops := [Acquire(DOOR, owner, e1, e2 - 1), Acquire(DOOR, owner, e2, e2 - 1),
                        Acquire(DOOR, other, e1, now)];
            GrantAt(ops, 0, DOOR) && GrantAt(ops, 2, DOOR) && LeaseAt(ops, 2, DOOR).owner == other
                && now < LeaseAt(ops, 0, DOOR).expires
  {
    var ops := [Acquire(DOOR, owner, e1, e2 - 1), Acquire(DOOR, owner, e2, e2 - 1), Acquire(DOOR, other, e1, now)];
    assert ops[..0] == [];
    BeforeNext(ops, 0);
    BeforeNext(ops, 1);
  }
}
