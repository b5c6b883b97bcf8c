/** Rolling a zone back to a past serial (zone/history.rs): the difference between the
    current rows and the reconstructed ones, and what applying it leaves. */
module Rollback {
  import opened Records
  import opened Zone
  import opened Transaction
  import opened Batch
  import opened History
  import opened ExternalDns

  ghost predicate HasKey(s: set<Rr>, k: Key) { exists t | t in s :: KeyOf(t) == k }

  /** A current row the rollback deletes: its record is not exactly a target one, unless it
      is a protected row without a counterpart. */
  ghost predicate Dropped(meta: Meta, target: set<Rr>, r: Row) {
    && Wire(r.rr) !in WireSet(target)
    && (HasKey(target, KeyOf(r.rr)) || !Protected(meta, r.rr))
  }

  /** The target records whose key no current row before `n` has. */
  ghost function Unmet(target: set<Rr>, rows: seq<Row>): set<Rr> {
    set t | t in target && forall r | r in rows :: KeyOf(r.rr) != KeyOf(t)
  }

  /** The target records some current row matches in everything but the TTL. */
  ghost function Retimed(target: set<Rr>, rows: seq<Row>): set<Rr> {
    set t | t in target && exists r | r in rows :: KeyOf(r.rr) == KeyOf(t) && r.rr.ttl != t.ttl
  }

  /** The target records that are not exactly held. */
  ghost function Lacking(target: set<Rr>, rows: seq<Row>): set<Rr> {
    set t | t in target && Wire(t) !in WireSet(Rrs(rows))
  }

  lemma LackingSplits(target: set<Rr>, rows: seq<Row>)
    requires Sound(rows)
    ensures Lacking(target, rows) == Unmet(target, rows) + Retimed(target, rows)
    ensures Unmet(target, rows) !! Retimed(target, rows)
  {
    forall t | t in target ensures t in Lacking(target, rows) <==> t in Unmet(target, rows) + Retimed(target, rows) {
      if Wire(t) in WireSet(Rrs(rows)) {
        var rr :| rr in Rrs(rows) && Wire(rr) == Wire(t);
        var r :| r in rows && r.rr == rr;
        assert forall e | e in rows && KeyOf(e.rr) == KeyOf(t) :: e == r;
      } else {
        forall r | r in rows && KeyOf(r.rr) == KeyOf(t) ensures r.rr.ttl != t.ttl {
          assert r.rr in Rrs(rows);
        }
      }
    }
  }

  /** One current row against the target buckets. */
  method CompareRow(meta: Meta, row: Row, byKey: Buckets) returns (rest: Buckets, del: bool, add: Option<Rr>)
    ensures rest == Pop(byKey, KeyOf(row.rr))
    ensures At(byKey, KeyOf(row.rr)) == [] ==> add == None && del == !Protected(meta, row.rr)
    ensures At(byKey, KeyOf(row.rr)) != [] ==>
              var b := At(byKey, KeyOf(row.rr));
              var t := b[|b| - 1];
              && del == (t.ttl != row.rr.ttl && row.rr.rtype != SOA)
              && add == if del then Some(t) else None
  {
    var b := At(byKey, KeyOf(row.rr));
    rest := Pop(byKey, KeyOf(row.rr));
    if b == [] {
      del, add := !Protected(meta, row.rr), None;
    } else {
      var t := b[|b| - 1];
      del := t.ttl != row.rr.ttl && row.rr.rtype != SOA;
      add := if del then Some(t) else None;
    }
  }

  /** What the loop has found after the rows `seen`. */
  ghost predicate Compared(meta: Meta, target: set<Rr>, seen: seq<Row>, byKey: Buckets, dels: seq<Row>, adds: seq<Rr>) {
    && Holds(byKey, Unmet(target, seen))
    && Listed(dels, seen)
    && (forall r :: r in dels <==> r in seen && Dropped(meta, target, r))
    && Lists(adds, Retimed(target, seen))
  }

  lemma PopHolds(m: Buckets, s: set<Rr>, k: Key)
    requires Holds(m, s) && KeyUnique(s)
    ensures Holds(Pop(m, k), set t | t in s && KeyOf(t) != k)
  {
    assert forall j | j != k :: At(Pop(m, k), j) == At(m, j);
    assert At(Pop(m, k), k) == [];
  }

  lemma SeenGrows(target: set<Rr>, seen: seq<Row>, row: Row)
    requires KeyUnique(target) && Sound(seen + [row]) && row !in seen
    ensures Unmet(target, seen + [row]) == set t | t in Unmet(target, seen) && KeyOf(t) != KeyOf(row.rr)
    ensures forall t :: t in Retimed(target, seen + [row]) <==>
              t in Retimed(target, seen) || (t in target && KeyOf(t) == KeyOf(row.rr) && row.rr.ttl != t.ttl)
    ensures forall t | t in target && KeyOf(t) == KeyOf(row.rr) ::
              t in Unmet(target, seen) && t !in Retimed(target, seen)
  {
    assert forall r | r in seen :: r in seen + [row];
    assert row in seen + [row];
    forall t | t in target && KeyOf(t) == KeyOf(row.rr) ensures t in Unmet(target, seen) {
      forall r | r in seen ensures KeyOf(r.rr) != KeyOf(t) { assert r in seen + [row]; }
    }
  }

  lemma ListsAppend(a: seq<Rr>, s: set<Rr>, b: seq<Rr>, t: set<Rr>)
    requires Lists(a, s) && Lists(b, t) && s !! t
    ensures Lists(a + b, s + t)
  {
  }

  lemma ListsOne(rr: Rr)
    ensures Lists([rr], {rr})
  {
  }

  lemma ListsMember(q: seq<Rr>, s: set<Rr>, rr: Rr)
    requires Lists(q, s)
    ensures rr in q <==> rr in s
  {
    assert rr in q <==> rr in multiset(q);
  }

  /** A row with no counterpart in the target. */
  lemma CompareUnmatched(meta: Meta, target: set<Rr>, seen: seq<Row>, byKey: Buckets, row: Row)
    requires KeyUnique(target) && Sound(seen + [row]) && row !in seen && Holds(byKey, Unmet(target, seen))
    requires At(byKey, KeyOf(row.rr)) == []
    ensures !HasKey(target, KeyOf(row.rr)) && (Dropped(meta, target, row) <==> !Protected(meta, row.rr))
    ensures Holds(byKey, Unmet(target, seen + [row])) && Retimed(target, seen + [row]) == Retimed(target, seen)
  {
    SeenGrows(target, seen, row);
    assert forall t | t in target && KeyOf(t) == KeyOf(row.rr) :: t in At(byKey, KeyOf(t));
    assert Unmet(target, seen + [row]) == Unmet(target, seen);
  }

  /** A row with its counterpart `t`. */
  lemma CompareMatched(meta: Meta, target: set<Rr>, seen: seq<Row>, byKey: Buckets, row: Row, t: Rr)
    requires KeyUnique(target) && Sound(seen + [row]) && row !in seen && Holds(byKey, Unmet(target, seen))
    requires At(byKey, KeyOf(row.rr)) == [t]
    ensures t in target && KeyOf(t) == KeyOf(row.rr) && t !in Retimed(target, seen)
    ensures Dropped(meta, target, row) <==> t.ttl != row.rr.ttl
    ensures Holds(Pop(byKey, KeyOf(row.rr)), Unmet(target, seen + [row]))
    ensures Retimed(target, seen + [row]) == Retimed(target, seen) + if t.ttl != row.rr.ttl then {t} else {}
  {
    SeenGrows(target, seen, row);
    assert t in At(byKey, KeyOf(row.rr));
    assert KeyOf(t) == KeyOf(row.rr) && t in Unmet(target, seen);
    assert forall x | x in target && KeyOf(x) == KeyOf(row.rr) :: x == t;
    assert Wire(row.rr) in WireSet(target) <==> t.ttl == row.rr.ttl;
    assert KeyUnique(Unmet(target, seen));
    PopHolds(byKey, Unmet(target, seen), KeyOf(row.rr));
  }

  lemma ListedGrows(dels: seq<Row>, seen: seq<Row>, row: Row)
    requires Listed(dels, seen) && forall e | e in seen :: e.id != row.id
    ensures Listed(dels, seen + [row]) && Listed(dels + [row], seen + [row])
  {
    assert forall i | 0 <= i < |dels| :: dels[i] in dels;
  }

  /** The row joins the deletes exactly when it is dropped. */
  lemma DelsGrow(meta: Meta, target: set<Rr>, seen: seq<Row>, dels: seq<Row>, row: Row)
    requires Listed(dels, seen) && forall e | e in seen :: e.id != row.id
    requires forall r :: r in dels <==> r in seen && Dropped(meta, target, r)
    ensures var out := if Dropped(meta, target, row) then dels + [row] else dels;
            Listed(out, seen + [row]) && forall r :: r in out <==> r in seen + [row] && Dropped(meta, target, r)
  {
    ListedGrows(dels, seen, row);
  }

  /** A row with no counterpart leaves the buckets and the adds alone. */
  lemma StepUnmatched(meta: Meta, target: set<Rr>, seen: seq<Row>, byKey: Buckets, dels: seq<Row>, adds: seq<Rr>,
                      row: Row)
    requires KeyUnique(target) && Sound(seen + [row]) && forall e | e in seen :: e.id != row.id
    requires Compared(meta, target, seen, byKey, dels, adds) && At(byKey, KeyOf(row.rr)) == []
    ensures Compared(meta, target, seen + [row], byKey, if !Protected(meta, row.rr) then dels + [row] else dels, adds)
  {
    CompareUnmatched(meta, target, seen, byKey, row);
    DelsGrow(meta, target, seen, dels, row);
  }

  /** A row with a counterpart takes it out of the buckets, and re-adds it if its TTL differs. */
  lemma StepMatched(meta: Meta, target: set<Rr>, seen: seq<Row>, byKey: Buckets, dels: seq<Row>, adds: seq<Rr>,
                    row: Row, t: Rr)
    requires KeyUnique(target) && Sound(seen + [row]) && forall e | e in seen :: e.id != row.id
    requires Compared(meta, target, seen, byKey, dels, adds) && At(byKey, KeyOf(row.rr)) == [t]
    ensures var del := t.ttl != row.rr.ttl;
            Compared(meta, target, seen + [row], Pop(byKey, KeyOf(row.rr)),
                     if del then dels + [row] else dels, if del then adds + [t] else adds)
  {
    CompareMatched(meta, target, seen, byKey, row, t);
    DelsGrow(meta, target, seen, dels, row);
    AddsGrow(adds, Retimed(target, seen), Retimed(target, seen + [row]), t, t.ttl != row.rr.ttl);
  }

  lemma AddsGrow(adds: seq<Rr>, was: set<Rr>, grown: set<Rr>, t: Rr, add: bool)
    requires Lists(adds, was) && t !in was && grown == was + if add then {t} else {}
    ensures Lists(if add then adds + [t] else adds, grown)
  {
    ListsOne(t);
    ListsAppend(adds, was, [t], {t});
  }

  lemma CompareStep(meta: Meta, target: set<Rr>, seen: seq<Row>, byKey: Buckets, dels: seq<Row>, adds: seq<Rr>,
                    row: Row, del: bool, add: Option<Rr>)
    requires KeyUnique(target) && Sound(seen + [row]) && (forall e | e in seen :: e.id != row.id) && row.rr.rtype != SOA
    requires Compared(meta, target, seen, byKey, dels, adds)
    requires At(byKey, KeyOf(row.rr)) == [] ==> add == None && del == !Protected(meta, row.rr)
    requires At(byKey, KeyOf(row.rr)) != [] ==>
               var b := At(byKey, KeyOf(row.rr));
               del == (b[|b| - 1].ttl != row.rr.ttl) && add == if del then Some(b[|b| - 1]) else None
    ensures Compared(meta, target, seen + [row], Pop(byKey, KeyOf(row.rr)),
                     if del then dels + [row] else dels, if add.Some? then adds + [add.value] else adds)
  {
    var b := At(byKey, KeyOf(row.rr));
    if b == [] {
      StepUnmatched(meta, target, seen, byKey, dels, adds, row);
    } else {
      assert b == [b[0]];
      StepMatched(meta, target, seen, byKey, dels, adds, row, b[0]);
    }
  }

  method GroupRecords(target: seq<Rr>, ghost s: set<Rr>) returns (m: Buckets)
    requires Lists(target, s) && KeyUnique(s)
    ensures Holds(m, s)
  {
    m := GroupAll(target);
    ListsDistinct(target, s);
    GroupHolds(target);
    assert RrSet(target) == s by { forall rr ensures rr in target <==> rr in s { ListsMember(target, s, rr); } }
  }

  lemma Twice(q: seq<Rr>, i: nat, j: nat)
    requires i < j < |q|
    ensures q[i] == q[j] ==> multiset(q)[q[i]] >= 2
  {
    assert q == q[..j] + q[j..] && q[i] in q[..j] && q[j] in q[j..];
    assert multiset(q) == multiset(q[..j]) + multiset(q[j..]);
  }

  lemma ListsDistinct(q: seq<Rr>, s: set<Rr>)
    requires Lists(q, s) && KeyUnique(s)
    ensures forall i, j | 0 <= i < j < |q| :: KeyOf(q[i]) != KeyOf(q[j])
  {
    forall i, j | 0 <= i < j < |q| ensures KeyOf(q[i]) != KeyOf(q[j]) {
      ListsMember(q, s, q[i]);
      ListsMember(q, s, q[j]);
      Twice(q, i, j);
    }
  }

  /** The comparison loop of `rollback`: rows to delete and records to add, in some order. */
  method Compare(meta: Meta, current: seq<Row>, target: seq<Rr>, ghost goal: set<Rr>)
    returns (dels: seq<Row>, adds: seq<Rr>)
    requires Sound(current) && UniqueIds(current) && (forall r | r in current :: r.rr.rtype != SOA)
    requires Lists(target, goal) && KeyUnique(goal)
    ensures Listed(dels, current)
    ensures forall r :: r in dels <==> r in current && Dropped(meta, goal, r)
    ensures Lists(adds, Lacking(goal, current))
  {
    var byKey := GroupRecords(target, goal);
    dels, adds := [], [];
    assert Unmet(goal, []) == goal && Retimed(goal, []) == {};
    for i := 0 to |current|
      invariant Compared(meta, goal, current[..i], byKey, dels, adds)
    {
      var row := current[i];
      assert current[..i + 1] == current[..i] + [row];
      var rest, del, add := CompareRow(meta, row, byKey);
      forall e | e in current[..i] ensures e.id != row.id { var j :| 0 <= j < i && current[j] == e; }
      assert Sound(current[..i + 1]) by { assert forall e | e in current[..i + 1] :: e in current; }
      CompareStep(meta, goal, current[..i], byKey, dels, adds, row, del, add);
      byKey := rest;
      if del { dels := dels + [row]; }
      if add.Some? { adds := adds + [add.value]; }
    }
    assert current[..|current|] == current;
    var left := Flatten(byKey);
    HoldsLists(byKey, Unmet(goal, current), left);
    LackingSplits(goal, current);
    ListsAppend(adds, Retimed(goal, current), left, Unmet(goal, current));
    adds := adds + left;
  }

  // ---- What applying the difference leaves ---------------------------------------------------

  /** Rows whose records are all records of a coherent zone, each identity once, are coherent. */
  lemma CoherentWithin(rows: seq<Row>, base: seq<Row>)
    requires Coherent(base) && KeysApart(rows)
    requires forall r | r in rows :: RrOk(r.rr) && Wire(r.rr) in WireSet(Rrs(base))
    ensures Coherent(rows)
  {
    forall i, j | 0 <= i < j < |rows| ensures PairOk(rows, i, j) {
      assert rows[i] in rows && rows[j] in rows && Apart(rows, i, j);
      WithinPair(base, Wire(rows[i].rr), Wire(rows[j].rr));
    }
  }

  lemma WithinPair(base: seq<Row>, a: WireRr, b: WireRr)
    requires Coherent(base) && a in WireSet(Rrs(base)) && b in WireSet(Rrs(base)) && a.key != b.key
    ensures Compatible(a, b)
  {
    var x :| x in Rrs(base) && Wire(x) == a;
    var y :| y in Rrs(base) && Wire(y) == b;
    var p :| 0 <= p < |base| && base[p].rr == x;
    var q :| 0 <= q < |base| && base[q].rr == y;
    assert p < q ==> PairOk(base, p, q);
    assert q < p ==> PairOk(base, q, p);
  }

  /** The comparison's outcome. */
  ghost predicate Difference(meta: Meta, current: seq<Row>, goal: set<Rr>, dels: seq<Row>, adds: seq<Rr>) {
    && Listed(dels, current)
    && (forall r :: r in dels <==> r in current && Dropped(meta, goal, r))
    && Lists(adds, Lacking(goal, current))
  }

  /** No protected row is left over: the restored primary NS has its counterpart. */
  lemma NothingLeftOver(meta: Meta, goal: set<Rr>, r: Row)
    requires ServesPrimary(meta, goal) && RrOk(r.rr)
    ensures Dropped(meta, goal, r) <==> Wire(r.rr) !in WireSet(goal)
  {
    if Protected(meta, r.rr) {
      var g :| g in goal && IsPrimaryNs(meta, g);
      assert KeyOf(g) == KeyOf(r.rr);
    }
  }

  lemma LeftRecords(meta: Meta, current: seq<Row>, goal: set<Rr>, dels: seq<Row>, adds: seq<Rr>, next: int)
    requires GoodRows(current) && ServesPrimary(meta, goal) && Difference(meta, current, goal, dels, adds)
    ensures forall rr :: rr in Rrs(After(current, Plan(dels, adds), next)) <==>
              || (exists r | r in current :: r.rr == rr && Wire(rr) in WireSet(goal))
              || rr in Lacking(goal, current)
  {
    GoodIsSound(current);
    AfterRrs(current, Plan(dels, adds), next);
    forall r | r in current ensures r in dels <==> Wire(r.rr) !in WireSet(goal) { NothingLeftOver(meta, goal, r); }
    forall rr ensures rr in adds <==> rr in Lacking(goal, current) { ListsMember(adds, Lacking(goal, current), rr); }
  }

  /** Applying the difference leaves exactly the target's records, as a transfer shows them. */
  lemma LeavesTarget(meta: Meta, current: seq<Row>, goal: set<Rr>, dels: seq<Row>, adds: seq<Rr>, next: int)
    requires GoodRows(current) && ServesPrimary(meta, goal) && Difference(meta, current, goal, dels, adds)
    ensures WireSet(Rrs(After(current, Plan(dels, adds), next))) == WireSet(goal)
  {
    LeftRecords(meta, current, goal, dels, adds, next);
    var out := Rrs(After(current, Plan(dels, adds), next));
    forall w | w in WireSet(goal) ensures w in WireSet(out) {
      var g :| g in goal && Wire(g) == w;
      if w in WireSet(Rrs(current)) {
        var rr :| rr in Rrs(current) && Wire(rr) == w;
        var r :| r in current && r.rr == rr;
        assert rr in out;
      } else {
        assert g in Lacking(goal, current);
        assert g in out;
      }
    }
  }

  /** A current row and a target record that differ only in spelling. */
  ghost predicate Respelled(current: seq<Row>, goal: set<Rr>) {
    exists r, g | r in current && g in goal :: Wire(r.rr) == Wire(g) && r.rr != g
  }

  lemma RowKept(meta: Meta, current: seq<Row>, goal: set<Rr>, dels: seq<Row>, adds: seq<Rr>, next: int, r: Row)
    requires GoodRows(current) && ServesPrimary(meta, goal) && Difference(meta, current, goal, dels, adds)
    requires r in current && Wire(r.rr) in WireSet(goal)
    ensures r.rr in Rrs(After(current, Plan(dels, adds), next))
  {
    LeftRecords(meta, current, goal, dels, adds, next);
  }

  /** A record spelled differently is not one of the goal's. */
  lemma OtherSpelling(current: seq<Row>, goal: set<Rr>) returns (r: Row)
    requires KeyUnique(goal) && Respelled(current, goal)
    ensures r in current && Wire(r.rr) in WireSet(goal) && r.rr !in goal
  {
    var g;
    r, g :| r in current && g in goal && Wire(r.rr) == Wire(g) && r.rr != g;
  }

  lemma SpelledAlike(current: seq<Row>, goal: set<Rr>, rr: Rr)
    requires !Respelled(current, goal)
    ensures (exists r | r in current :: r.rr == rr && Wire(rr) in WireSet(goal)) || rr in Lacking(goal, current)
            <==> rr in goal
  {
    if r :| r in current && r.rr == rr && Wire(rr) in WireSet(goal) {
      var g :| g in goal && Wire(g) == Wire(rr);
    }
    if rr in goal && Wire(rr) in WireSet(Rrs(current)) {
      var x :| x in Rrs(current) && Wire(x) == Wire(rr);
      var r :| r in current && r.rr == x;
    }
  }

  /** The stored rows are restored to the letter exactly when no current row spells a target
      record differently. */
  lemma LeavesRowsExactly(meta: Meta, current: seq<Row>, goal: set<Rr>, dels: seq<Row>, adds: seq<Rr>, next: int)
    requires GoodRows(current) && ServesPrimary(meta, goal) && Difference(meta, current, goal, dels, adds)
    requires KeyUnique(goal)
    ensures Rrs(After(current, Plan(dels, adds), next)) == goal <==> !Respelled(current, goal)
  {
    if Respelled(current, goal) {
      var r := OtherSpelling(current, goal);
      RowKept(meta, current, goal, dels, adds, next, r);
    } else {
      LeftRecords(meta, current, goal, dels, adds, next);
      var out := Rrs(After(current, Plan(dels, adds), next));
      forall rr ensures rr in out <==> rr in goal { SpelledAlike(current, goal, rr); }
    }
  }

  /** Nothing is respelled against the rows before: a row left is one of those rows, or a record
      that none of them matches. */
  lemma NothingRespelled(meta: Meta, current: seq<Row>, goal: set<Rr>, dels: seq<Row>, adds: seq<Rr>, next: int)
    requires GoodRows(current) && ServesPrimary(meta, goal) && Difference(meta, current, goal, dels, adds)
    ensures !Respelled(After(current, Plan(dels, adds), next), Rrs(current))
  {
    LeftRecords(meta, current, goal, dels, adds, next);
    GoodIsSound(current);
    var out := After(current, Plan(dels, adds), next);
    forall r, g | r in out && g in Rrs(current) && Wire(r.rr) == Wire(g) ensures r.rr == g {
      assert r.rr in Rrs(out) && Wire(g) in WireSet(Rrs(current));
    }
  }

  /** Every validated add passes: the zone stays inside the target's coherent records. */
  lemma NeverRefused(meta: Meta, current: seq<Row>, base: seq<Row>, dels: seq<Row>, adds: seq<Rr>, next: int)
    requires GoodRows(current) && Coherent(base) && ServesPrimary(meta, Rrs(base))
    requires Difference(meta, current, Rrs(base), dels, adds)
    ensures Coherent(After(current, Plan(dels, adds), next))
    ensures AddErrors(Without(current, Ids(dels)), adds) == []
    ensures ServesPrimary(meta, Rrs(After(current, Plan(dels, adds), next)))
  {
    var p, goal := Plan(dels, adds), Rrs(base);
    var out := After(current, p, next);
    LeavesTarget(meta, current, goal, dels, adds, next);
    LeftRecords(meta, current, goal, dels, adds, next);
    forall r | r in out ensures RrOk(r.rr) && Wire(r.rr) in WireSet(goal) {
      assert r.rr in Rrs(out);
      if r.rr in goal { var b :| b in base && b.rr == r.rr; }
    }
    AfterApart(current, base, dels, adds, next);
    CoherentWithin(out, base);
    AcceptedCoherent(current, p, next);
    var g :| g in goal && IsPrimaryNs(meta, g);
    var rr :| rr in Rrs(out) && Wire(rr) == Wire(g);
    assert IsPrimaryNs(meta, rr);
  }

  lemma JoinApart(kept: seq<Row>, adds: seq<Rr>, next: int)
    requires KeysApart(kept) && forall i, j | 0 <= i < j < |adds| :: KeyOf(adds[i]) != KeyOf(adds[j])
    requires forall r, a | r in kept && a in adds :: KeyOf(r.rr) != KeyOf(a)
    ensures KeysApart(kept + Numbered(adds, next))
  {
    var out, n := kept + Numbered(adds, next), |kept|;
    forall i, j | 0 <= i < j < |out| ensures Apart(out, i, j) {
      if j < n {
        assert Apart(kept, i, j);
      } else if i < n {
        assert out[i] in kept && adds[j - n] in adds;
      }
    }
  }

  lemma AfterApart(current: seq<Row>, base: seq<Row>, dels: seq<Row>, adds: seq<Rr>, next: int)
    requires GoodRows(current) && Coherent(base) && Lists(adds, Lacking(Rrs(base), current))
    requires forall r | r in Without(current, Ids(dels)) :: Wire(r.rr) in WireSet(Rrs(base))
    ensures KeysApart(After(current, Plan(dels, adds), next))
  {
    var kept := Without(current, Ids(dels));
    assert KeysApart(kept) by { WithoutCoherent(current, Ids(dels)); CoherentKeys(kept); }
    assert KeyUnique(Rrs(base)) by { CoherentKeys(base); }
    ListsDistinct(adds, Lacking(Rrs(base), current));
    forall r, a | r in kept && a in adds ensures KeyOf(r.rr) != KeyOf(a) {
      KeptIsOther(current, base, r, adds, a);
    }
    JoinApart(kept, adds, next);
  }

  lemma KeptIsOther(current: seq<Row>, base: seq<Row>, r: Row, adds: seq<Rr>, a: Rr)
    requires KeyUnique(Rrs(base)) && Lists(adds, Lacking(Rrs(base), current))
    requires r in current && Wire(r.rr) in WireSet(Rrs(base)) && a in adds
    ensures KeyOf(r.rr) != KeyOf(a)
  {
    ListsMember(adds, Lacking(Rrs(base), current), a);
    var g :| g in Rrs(base) && Wire(g) == Wire(r.rr);
    assert r.rr in Rrs(current);
    assert Wire(r.rr) in WireSet(Rrs(current));
  }

  // ---- Keeping a primary NS -----------------------------------------------------------------------

  /** `apex_ns_rrset_ttl`: the TTL of the first apex NS candidate, or the zone's. */
  function ApexNsTtl(meta: Meta, candidates: seq<Rr>): int {
    if candidates == [] then meta.ttl
    else if candidates[0].rtype == NS && candidates[0].owner == [] then candidates[0].ttl
    else ApexNsTtl(meta, candidates[1..])
  }

  lemma RestCoherent(rows: seq<Row>)
    requires rows != [] && Coherent(rows)
    ensures Coherent(rows[1..])
  {
    forall i, j | 0 <= i < j < |rows[1..]| ensures PairOk(rows[1..], i, j) { assert PairOk(rows, i + 1, j + 1); }
    assert forall r | r in rows[1..] :: r in rows;
    assert Consistent(rows[1..]);
  }

  /** Joining the apex NS RRset: the TTL agrees with every apex NS of coherent rows. */
  lemma {:induction false} ApexNsTtlJoins(meta: Meta, rows: seq<Row>)
    requires Coherent(rows)
    ensures forall r | r in rows && r.rr.rtype == NS && r.rr.owner == [] :: r.rr.ttl == ApexNsTtl(meta, RrsOf(rows))
  {
    if rows != [] {
      assert RrsOf(rows)[1..] == RrsOf(rows[1..]);
      RestCoherent(rows);
      ApexNsTtlJoins(meta, rows[1..]);
      forall r | r in rows && r.rr.rtype == NS && r.rr.owner == [] ensures r.rr.ttl == ApexNsTtl(meta, RrsOf(rows)) {
        var k :| 0 <= k < |rows| && rows[k] == r;
        if k > 0 { assert PairOk(rows, 0, k) && rows[1..][k - 1] == r; }
      }
    }
  }

  /** Add the primary NS when neither the kept rows nor the adds carry one. */
  method KeepPrimary(meta: Meta, kept: seq<Row>, adds: seq<Rr>) returns (out: seq<Rr>)
    ensures ServesPrimary(meta, Rrs(kept) + RrSet(adds)) ==> out == adds
    ensures !ServesPrimary(meta, Rrs(kept) + RrSet(adds)) ==>
              out == adds + [PrimaryNsRr(meta, ApexNsTtl(meta, adds + RrsOf(kept)))]
  {
    if (exists r | r in kept :: IsPrimaryNs(meta, r.rr)) || (exists a | a in adds :: IsPrimaryNs(meta, a)) {
      assert ServesPrimary(meta, Rrs(kept) + RrSet(adds)) by {
        if r :| r in kept && IsPrimaryNs(meta, r.rr) { assert r.rr in Rrs(kept); }
      }
      out := adds;
    } else {
      assert !ServesPrimary(meta, Rrs(kept) + RrSet(adds));
      out := adds + [PrimaryNsRr(meta, ApexNsTtl(meta, adds + RrsOf(kept)))];
    }
  }
}
