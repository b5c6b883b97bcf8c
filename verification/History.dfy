/** Point-in-time reconstruction: the current rows with the log undone newest-first
    (zone/history.rs). Matching ignores TTLs and pops any record of a key. */
module History {
  import opened Records
  import opened Zone

  /** Records in matching buckets. */
  type Buckets = map<Key, seq<Rr>>

  function At(m: Buckets, k: Key): seq<Rr> { if k in m then m[k] else [] }

  function Push(m: Buckets, rr: Rr): Buckets { m[KeyOf(rr) := At(m, KeyOf(rr)) + [rr]] }

  /** A pop from an absent or empty bucket is tolerated and changes nothing. */
  function Pop(m: Buckets, k: Key): Buckets {
    if At(m, k) == [] then m else m[k := m[k][..|m[k]| - 1]]
  }

  function UndoRow(m: Buckets, e: LogRow): Buckets {
    match e
    case SoaLog(_, _, _, _) => m
    case RrLog(_, Added, rr) => Pop(m, KeyOf(rr))
    case RrLog(_, Deleted, rr) => Push(m, rr)
  }

  function Group(rrs: seq<Rr>): Buckets {
    if rrs == [] then map[] else Push(Group(rrs[..|rrs| - 1]), rrs[|rrs| - 1])
  }

  /** Undo `log` newest-first. */
  function Undo(m: Buckets, log: seq<LogRow>): Buckets
    decreases log
  {
    if log == [] then m else Undo(UndoRow(m, log[|log| - 1]), log[..|log| - 1])
  }

  /** Every bucket holds records of its own key. */
  ghost predicate Sorted(m: Buckets) { forall k, rr | k in m && rr in m[k] :: KeyOf(rr) == k }

  /** Holding `s` with at most one record per key. */
  ghost predicate Holds(m: Buckets, s: set<Rr>) {
    && Sorted(m)
    && (forall k | k in m :: |m[k]| <= 1)
    && (forall rr :: rr in At(m, KeyOf(rr)) <==> rr in s)
  }

  lemma EmptyBucket(m: Buckets, s: set<Rr>, k: Key)
    requires Holds(m, s) && KeyFree(s, k)
    ensures At(m, k) == []
  {
    var b := At(m, k);
    assert b != [] ==> b[0] in At(m, KeyOf(b[0]));
  }

  lemma PushHolds(m: Buckets, s: set<Rr>, rr: Rr)
    requires Holds(m, s) && KeyFree(s, KeyOf(rr))
    ensures Holds(Push(m, rr), s + {rr})
  {
    EmptyBucket(m, s, KeyOf(rr));
    assert At(Push(m, rr), KeyOf(rr)) == [rr];
    assert forall k | k != KeyOf(rr) :: At(Push(m, rr), k) == At(m, k);
  }

  lemma {:induction false} GroupHolds(rrs: seq<Rr>)
    requires forall i, j | 0 <= i < j < |rrs| :: KeyOf(rrs[i]) != KeyOf(rrs[j])
    ensures Holds(Group(rrs), RrSet(rrs))
  {
    if rrs != [] {
      var n := |rrs| - 1;
      GroupHolds(rrs[..n]);
      var s := RrSet(rrs[..n]);
      assert rrs == rrs[..n] + [rrs[n]];
      assert RrSet(rrs) == s + {rrs[n]};
      PushHolds(Group(rrs[..n]), s, rrs[n]);
    }
  }

  /** Undoing one log row in the buckets undoes it on the set, TTLs included. */
  lemma UndoRowExact(m: Buckets, s: set<Rr>, e: LogRow)
    requires KeyUnique(s) && Fits(s, e) && Holds(m, Apply(s, e))
    ensures Holds(UndoRow(m, e), s)
  {
    if e.RrLog? {
      var k, rr := KeyOf(e.rr), e.rr;
      if e.op == Added {
        assert rr in At(m, k);
        assert At(m, k) == [rr];
      } else {
        EmptyBucket(m, s - {rr}, k);
      }
    }
  }

  lemma {:induction false} UndoExact(m: Buckets, s: set<Rr>, log: seq<LogRow>)
    requires KeyUnique(s) && Legal(s, log) && Holds(m, Play(s, log))
    ensures Holds(Undo(m, log), s)
    decreases log
  {
    if log != [] {
      var n := |log| - 1;
      PlayKeyUnique(s, log[..n]);
      UndoRowExact(m, Play(s, log[..n]), log[n]);
      UndoExact(UndoRow(m, log[n]), s, log[..n]);
    }
  }

  lemma CoherentKeys(rows: seq<Row>)
    requires Coherent(rows)
    ensures KeysApart(rows)
    ensures KeyUnique(Rrs(rows))
  {
    forall i, j | 0 <= i < j < |rows| ensures Apart(rows, i, j) { assert PairOk(rows, i, j); }
    forall a, b | a in Rrs(rows) && b in Rrs(rows) && KeyOf(a) == KeyOf(b) ensures a == b {
      var i :| 0 <= i < |rows| && rows[i].rr == a;
      var j :| 0 <= j < |rows| && rows[j].rr == b;
      assert i < j ==> Apart(rows, i, j);
      assert j < i ==> Apart(rows, j, i);
    }
  }

  lemma RunKeys(h: seq<State>, i: nat)
    requires IsRun(h) && i < |h|
    ensures KeysApart(h[i].rows)
    ensures KeyUnique(Rrs(h[i].rows))
  {
    RunValid(h, i);
    CoherentKeys(h[i].rows);
  }

  lemma GroupRows(rows: seq<Row>)
    requires KeysApart(rows)
    ensures Holds(Group(RrsOf(rows)), Rrs(rows))
  {
    var rrs := RrsOf(rows);
    assert RrSet(rrs) == Rrs(rows) by {
      forall r | r in rows ensures r.rr in rrs {
        var n :| 0 <= n < |rrs| && rows[n] == r;
        assert rrs[n] == r.rr;
      }
    }
    forall i, j | 0 <= i < j < |rrs| ensures KeyOf(rrs[i]) != KeyOf(rrs[j]) { assert Apart(rows, i, j); }
    GroupHolds(rrs);
  }

  /** For every run, every past serial and every later state, the reconstruction
      holds exactly the records committed at that serial. */
  lemma HistoryExact(h: seq<State>, i: nat, j: nat)
    requires IsRun(h) && i <= j < |h|
    ensures Holds(Undo(Group(RrsOf(h[j].rows)), Between(h[j].log, h[i].serial, h[j].serial)), Rrs(h[i].rows))
  {
    RunPlay(h, i, j);
    RunBetween(h, i, j, j);
    RunKeys(h, i);
    RunKeys(h, j);
    GroupRows(h[j].rows);
    UndoExact(Group(RrsOf(h[j].rows)), Rrs(h[i].rows), Tail(h, i, j));
  }

  /** The answer for a past serial is the same whichever later state it is asked in. */
  lemma HistoryImmutable(h: seq<State>, i: nat, j: nat, k: nat, rr: Rr)
    requires IsRun(h) && i <= j < |h| && i <= k < |h|
    ensures At(Undo(Group(RrsOf(h[j].rows)), Between(h[j].log, h[i].serial, h[j].serial)), KeyOf(rr))
         == At(Undo(Group(RrsOf(h[k].rows)), Between(h[k].log, h[i].serial, h[k].serial)), KeyOf(rr))
  {
    HistoryExact(h, i, j);
    HistoryExact(h, i, k);
    var a := Undo(Group(RrsOf(h[j].rows)), Between(h[j].log, h[i].serial, h[j].serial));
    var b := Undo(Group(RrsOf(h[k].rows)), Between(h[k].log, h[i].serial, h[k].serial));
    SameBucket(a, b, Rrs(h[i].rows), KeyOf(rr));
  }

  lemma SameBucket(a: Buckets, b: Buckets, s: set<Rr>, k: Key)
    requires Holds(a, s) && Holds(b, s)
    ensures At(a, k) == At(b, k)
  {
    if At(a, k) != [] { assert a[k][0] in At(a, KeyOf(a[k][0])); }
    if At(b, k) != [] { assert b[k][0] in At(b, KeyOf(b[k][0])); }
  }

  // ---- The reconstruction loop --------------------------------------------

  lemma SortedGroup(rrs: seq<Rr>)
    ensures Sorted(Group(rrs))
  {
    if rrs != [] { SortedGroup(rrs[..|rrs| - 1]); }
  }

  /** Every record as often as its own bucket holds it. */
  ghost predicate Flat(out: seq<Rr>, m: Buckets) { Emptied(out, m, {}) == true }

  /** The same, with the buckets of `left` still to come. */
  ghost predicate Emptied(out: seq<Rr>, m: Buckets, left: set<Key>) {
    forall rr :: multiset(out)[rr] == if KeyOf(rr) in left then 0 else multiset(At(m, KeyOf(rr)))[rr]
  }

  lemma EmptyNext(out: seq<Rr>, m: Buckets, left: set<Key>, k: Key)
    requires Sorted(m) && k in m && k in left && Emptied(out, m, left)
    ensures Emptied(out + m[k], m, left - {k})
  {
    forall rr ensures multiset(m[k])[rr] > 0 ==> KeyOf(rr) == k { assert rr in multiset(m[k]) ==> rr in m[k]; }
  }

  /** `into_values().flatten()`: the buckets' records in some bucket order. */
  method Flatten(m: Buckets) returns (out: seq<Rr>)
    requires Sorted(m)
    ensures Flat(out, m)
  {
    out := [];
    var left := m.Keys;
    while left != {}
      invariant left <= m.Keys
      invariant Emptied(out, m, left)
      decreases left
    {
      var k :| k in left;
      EmptyNext(out, m, left, k);
      out := out + m[k];
      left := left - {k};
    }
  }

  method GroupAll(rrs: seq<Rr>) returns (m: Buckets)
    ensures m == Group(rrs)
  {
    m := map[];
    for i := 0 to |rrs|
      invariant m == Group(rrs[..i])
    {
      assert rrs[..i + 1][..i] == rrs[..i];
      m := Push(m, rrs[i]);
    }
    assert rrs[..|rrs|] == rrs;
  }

  /** The undo loop, newest change first. */
  method UndoAll(start: Buckets, changes: seq<LogRow>) returns (m: Buckets)
    requires Sorted(start)
    ensures m == Undo(start, changes) && Sorted(m)
  {
    m := start;
    var n := |changes|;
    assert changes[..n] == changes;
    while n > 0
      invariant 0 <= n <= |changes|
      invariant Undo(m, changes[..n]) == Undo(start, changes)
      invariant Sorted(m)
    {
      n := n - 1;
      assert changes[..n + 1][..n] == changes[..n];
      match changes[n] {
        case SoaLog(_, _, _, _) =>
        case RrLog(_, Added, rr) => m := Pop(m, KeyOf(rr));
        case RrLog(_, Deleted, rr) => m := Push(m, rr);
      }
    }
  }

  /** `reconstruct_records_at_serial` on the rows and log rows it reads. */
  method Reconstruct(rows: seq<Row>, changes: seq<LogRow>) returns (out: seq<Rr>)
    ensures Flat(out, Undo(Group(RrsOf(rows)), changes))
  {
    var state := GroupAll(RrsOf(rows));
    SortedGroup(RrsOf(rows));
    state := UndoAll(state, changes);
    out := Flatten(state);
  }

  /** A list holding each record of `s` once and nothing else. */
  ghost predicate Lists(out: seq<Rr>, s: set<Rr>) { forall rr :: multiset(out)[rr] == if rr in s then 1 else 0 }

  lemma HoldsLists(m: Buckets, s: set<Rr>, out: seq<Rr>)
    requires Holds(m, s) && Flat(out, m)
    ensures Lists(out, s)
  {
    assert Emptied(out, m, {});
    forall rr ensures multiset(out)[rr] == if rr in s then 1 else 0 {
      var b := At(m, KeyOf(rr));
      if rr in s {
        assert rr in b;
        assert b == [rr];
      } else {
        assert rr !in b;
      }
    }
  }

  lemma ReconstructionLists(h: seq<State>, i: nat, now: State, serial: int, out: seq<Rr>)
    requires IsRun(h) && i < |h| && now == h[|h| - 1] && serial == h[i].serial
    requires Flat(out, Undo(Group(RrsOf(now.rows)), Between(now.log, serial, now.serial)))
    ensures Lists(out, Rrs(h[i].rows))
  {
    HistoryExact(h, i, |h| - 1);
    HoldsLists(Undo(Group(RrsOf(now.rows)), Between(now.log, serial, now.serial)), Rrs(h[i].rows), out);
  }

  lemma CurrentLists(h: seq<State>, i: nat)
    requires IsRun(h) && i < |h|
    ensures Lists(RrsOf(h[i].rows), Rrs(h[i].rows))
  {
    RunKeys(h, i);
    forall m, n | 0 <= m < n < |h[i].rows| ensures h[i].rows[m].rr != h[i].rows[n].rr { assert Apart(h[i].rows, m, n); }
    SoleListing(h[i].rows);
  }

  /** The records of an earlier serial, from the rows and the log after it. */
  method RecordsBefore(ghost h: seq<State>, now: State, ghost i: nat, serial: int) returns (out: seq<Rr>)
    requires IsRun(h) && h[|h| - 1] == now && i < |h| && serial == h[i].serial
    ensures Lists(out, Rrs(h[i].rows))
  {
    out := Reconstruct(now.rows, Between(now.log, serial, now.serial));
    ReconstructionLists(h, i, now, serial, out);
  }

  /** `records_at_serial` in any reachable state: every record committed at the
      serial, once, and nothing else. */
  method RecordsAt(ghost h: seq<State>, now: State, serial: int) returns (out: seq<Rr>)
    requires IsRun(h) && h[|h| - 1] == now
    requires h[0].serial <= serial <= now.serial
    ensures serial - h[0].serial < |h|
    ensures Lists(out, Rrs(h[serial - h[0].serial].rows))
  {
    ghost var i := serial - h[0].serial;
    RunSerial(h, |h| - 1);
    RunSerial(h, i);
    if serial == now.serial {
      out := RrsOf(now.rows);
      CurrentLists(h, i);
    } else {
      out := RecordsBefore(h, now, i, serial);
    }
  }

  lemma {:induction false} SoleListing(rows: seq<Row>)
    requires forall i, j | 0 <= i < j < |rows| :: rows[i].rr != rows[j].rr
    ensures Lists(RrsOf(rows), Rrs(rows))
  {
    if rows == [] {
      assert RrsOf(rows) == [];
    } else {
      var n := |rows| - 1;
      SoleListing(rows[..n]);
      assert rows == rows[..n] + [rows[n]];
      assert RrsOf(rows) == RrsOf(rows[..n]) + [rows[n].rr];
      assert Rrs(rows) == Rrs(rows[..n]) + {rows[n].rr};
      assert rows[n].rr !in Rrs(rows[..n]);
    }
  }
}
