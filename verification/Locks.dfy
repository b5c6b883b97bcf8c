/** Row locks of concurrent requests (external_dns/apply.rs): every request takes its zones' locks
    one by one in name order and keeps them until it ends, so no set of requests can wait for each
    other in a circle. */
module Locks {
  /** Zone names in their order. */
  type Rank = int

  /** A request: the zones it locks, in order, and how many it holds. */
  datatype Request = Request(wants: seq<Rank>, held: nat)

  datatype Table = Table(requests: map<Id, Request>)

  datatype Id = Id(n: int)

  ghost predicate Ordered(q: seq<Rank>) { forall i, j | 0 <= i < j < |q| :: q[i] < q[j] }

  ghost predicate Holds(t: Table, r: Id, z: Rank) {
    && r in t.requests
    && exists i | 0 <= i < t.requests[r].held && i < |t.requests[r].wants| :: t.requests[r].wants[i] == z
  }

  ghost predicate Waiting(t: Table, r: Id) { r in t.requests && t.requests[r].held < |t.requests[r].wants| }

  ghost function NextLock(t: Table, r: Id): Rank
    requires Waiting(t, r)
  { t.requests[r].wants[t.requests[r].held] }

  // ---- Steps ----------------------------------------------------------------------------------------

  ghost predicate Begin(t: Table, t': Table, r: Id, wants: seq<Rank>) {
    r !in t.requests && Ordered(wants) && t' == Table(t.requests[r := Request(wants, 0)])
  }

  ghost predicate Free(t: Table, z: Rank) { forall r :: !Holds(t, r, z) }

  ghost predicate Acquire(t: Table, t': Table, r: Id) {
    && Waiting(t, r) && Free(t, NextLock(t, r))
    && t' == Table(t.requests[r := t.requests[r].(held := t.requests[r].held + 1)])
  }

  /** Commit or roll back: every lock of the request goes at once. */
  ghost predicate End(t: Table, t': Table, r: Id) { r in t.requests && t' == Table(t.requests - {r}) }

  ghost predicate Next(t: Table, t': Table) {
    || (exists r, wants :: Begin(t, t', r, wants))
    || (exists r :: Acquire(t, t', r))
    || (exists r :: End(t, t', r))
  }

  ghost predicate StepFrom(ts: seq<Table>, i: nat)
    requires i + 1 < |ts|
  { Next(ts[i], ts[i + 1]) }

  ghost predicate IsTrace(ts: seq<Table>) {
    ts != [] && ts[0] == Table(map[]) && forall i | 0 <= i < |ts| - 1 :: StepFrom(ts, i)
  }

  // ---- Safety ------------------------------------------------------------------------------------------

  ghost predicate Exclusive(t: Table) { forall a, b, z | Holds(t, a, z) && Holds(t, b, z) :: a == b }

  ghost predicate LocksOk(t: Table) {
    && (forall r | r in t.requests :: Ordered(t.requests[r].wants) && t.requests[r].held <= |t.requests[r].wants|)
    && Exclusive(t)
  }

  lemma AcquireHolds(t: Table, t': Table, r: Id)
    requires Acquire(t, t', r)
    ensures forall a, z :: Holds(t', a, z) <==> Holds(t, a, z) || (a == r && z == NextLock(t, r))
  {
    var n := t.requests[r].held;
    forall a, z ensures Holds(t', a, z) <==> Holds(t, a, z) || (a == r && z == NextLock(t, r)) {
      if a == r {
        if Holds(t, r, z) {
          var i :| 0 <= i < n && i < |t.requests[r].wants| && t.requests[r].wants[i] == z;
          assert t'.requests[r].wants[i] == z;
        }
        if Holds(t', r, z) {
          var i :| 0 <= i < n + 1 && i < |t.requests[r].wants| && t.requests[r].wants[i] == z;
          assert i < n ==> Holds(t, r, z);
        }
        assert t'.requests[r].wants[n] == NextLock(t, r);
      }
    }
  }

  lemma OthersHold(t: Table, t': Table, r: Id)
    requires (exists wants :: Begin(t, t', r, wants)) || End(t, t', r)
    ensures forall a, z :: Holds(t', a, z) ==> Holds(t, a, z)
  {
    forall a, z | Holds(t', a, z) ensures Holds(t, a, z) {
      var i :| 0 <= i < t'.requests[a].held && i < |t'.requests[a].wants| && t'.requests[a].wants[i] == z;
      assert a != r;
    }
  }

  lemma NextOk(t: Table, t': Table)
    requires LocksOk(t) && Next(t, t')
    ensures LocksOk(t')
  {
    if r :| Acquire(t, t', r) {
      AcquireHolds(t, t', r);
    } else if r, wants :| Begin(t, t', r, wants) {
      OthersHold(t, t', r);
    } else {
      var r :| End(t, t', r);
      OthersHold(t, t', r);
    }
  }

  /** No zone is ever locked by two requests at once. */
  lemma {:induction false} LocksSafe(ts: seq<Table>, n: nat)
    requires IsTrace(ts) && n < |ts|
    ensures LocksOk(ts[n])
  {
    if n > 0 {
      LocksSafe(ts, n - 1);
      assert StepFrom(ts, n - 1);
      NextOk(ts[n - 1], ts[n]);
    }
  }

  // ---- No deadlock ----------------------------------------------------------------------------------------

  /** The request can take its next lock, or holds all it wants and can end. */
  ghost predicate CanMove(t: Table, r: Id) {
    r in t.requests && (Waiting(t, r) ==> Free(t, NextLock(t, r)))
  }

  /** The holder of a lock waits, if it waits at all, for a later one. */
  lemma HolderWaitsLater(t: Table, r: Id, z: Rank)
    requires LocksOk(t) && Holds(t, r, z)
    ensures Waiting(t, r) ==> z < NextLock(t, r)
  {
    var i :| 0 <= i < t.requests[r].held && i < |t.requests[r].wants| && t.requests[r].wants[i] == z;
    assert Ordered(t.requests[r].wants);
  }

  /** Following holders from a blocked request reaches one that can move: each waits for a later
      zone than the one before, and there are finitely many below any bound. */
  lemma {:induction false} SomeMoves(t: Table, r: Id, bound: int) returns (m: Id)
    requires LocksOk(t) && r in t.requests
    requires forall a | Waiting(t, a) :: NextLock(t, a) <= bound
    ensures CanMove(t, m)
    decreases if Waiting(t, r) then bound - NextLock(t, r) + 1 else 0
  {
    if CanMove(t, r) {
      m := r;
    } else {
      var h :| Holds(t, h, NextLock(t, r));
      HolderWaitsLater(t, h, NextLock(t, r));
      m := SomeMoves(t, h, bound);
    }
  }

  lemma {:induction false} WaitBound(t: Table, ids: set<Id>) returns (bound: int)
    ensures forall a | a in ids && Waiting(t, a) :: NextLock(t, a) <= bound
    decreases |ids|
  {
    if ids == {} {
      bound := 0;
    } else {
      var a :| a in ids;
      bound := WaitBound(t, ids - {a});
      if Waiting(t, a) && NextLock(t, a) > bound { bound := NextLock(t, a); }
    }
  }

  /** Requests never deadlock: while any is under way, one of them can take its next lock or end. */
  lemma NeverStuck(ts: seq<Table>, n: nat, r: Id) returns (m: Id)
    requires IsTrace(ts) && n < |ts| && r in ts[n].requests
    ensures CanMove(ts[n], m)
    ensures exists t' :: Next(ts[n], t') && (Acquire(ts[n], t', m) || End(ts[n], t', m))
  {
    var t := ts[n];
    LocksSafe(ts, n);
    var bound := WaitBound(t, t.requests.Keys);
    m := SomeMoves(t, r, bound);
    if Waiting(t, m) {
      assert Acquire(t, Table(t.requests[m := t.requests[m].(held := t.requests[m].held + 1)]), m);
    } else {
      assert End(t, Table(t.requests - {m}), m);
    }
  }

  /** The order is what prevents it: two requests that take the same two zones in opposite orders
      can each hold what the other waits for. */
  lemma CrossedOrderStuck(a: Id, b: Id, x: Rank, y: Rank)
    requires a != b && x != y
    ensures var t := Table(map[a := Request([x, y], 1), b := Request([y, x], 1)]);
            Exclusive(t) && !CanMove(t, a) && !CanMove(t, b)
  {
    var t := Table(map[a := Request([x, y], 1), b := Request([y, x], 1)]);
    assert t.requests[a].wants[0] == x && t.requests[b].wants[0] == y;
    assert Holds(t, a, x) && Holds(t, b, y);
  }
}
