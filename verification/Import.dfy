/** Importing a zone file into a zone (record/import.rs): dropping duplicates within the
    file, the deletions each mode implies, the TTL reconcile, and the counts reported. */
module Import {
  import opened Records
  import opened Zone
  import opened Transaction
  import opened Batch
  import opened ExternalDns
  import History

  datatype Mode = Append | Upsert | ReplaceZone

  // ---- Duplicates within the file ------------------------------------------------------

  /** Kept records, exact duplicates dropped, and duplicates refused for a different TTL. */
  datatype Deduped = Deduped(desired: seq<Rr>, skipped: nat, conflicts: nat)

  function KeepFirst(acc: Deduped, rr: Rr): Deduped {
    if exists d | d in acc.desired :: Wire(d) == Wire(rr) then acc.(skipped := acc.skipped + 1)
    else if exists d | d in acc.desired :: KeyOf(d) == KeyOf(rr) then acc.(conflicts := acc.conflicts + 1)
    else acc.(desired := acc.desired + [rr])
  }

  function Dedup(parsed: seq<Rr>): Deduped {
    if parsed == [] then Deduped([], 0, 0) else KeepFirst(Dedup(parsed[..|parsed| - 1]), parsed[|parsed| - 1])
  }

  ghost predicate DistinctKeys(rrs: seq<Rr>) { forall i, j | 0 <= i < j < |rrs| :: KeyOf(rrs[i]) != KeyOf(rrs[j]) }

  lemma DistinctKeysGrow(q: seq<Rr>, rr: Rr)
    requires DistinctKeys(q) && KeyOf(rr) !in Keys(q)
    ensures DistinctKeys(q + [rr])
  {
    forall i | 0 <= i < |q| ensures KeyOf(q[i]) != KeyOf(rr) { assert q[i] in q; }
  }

  /** A key that is kept already keeps the list; a new one extends it. */
  lemma KeepFirstList(acc: Deduped, rr: Rr)
    ensures KeyOf(rr) in Keys(acc.desired) ==> KeepFirst(acc, rr).desired == acc.desired
    ensures KeyOf(rr) !in Keys(acc.desired) ==> KeepFirst(acc, rr) == acc.(desired := acc.desired + [rr])
    ensures Wire(rr) !in Exacts(acc.desired) && KeyOf(rr) in Keys(acc.desired) ==>
              KeepFirst(acc, rr).conflicts == acc.conflicts + 1
  {
    assert forall d | d in acc.desired :: KeyOf(d) in Keys(acc.desired) && Wire(d) in Exacts(acc.desired);
  }

  lemma KeepFirstExact(acc: Deduped, rr: Rr)
    requires DistinctKeys(acc.desired)
    ensures var out := KeepFirst(acc, rr);
            && DistinctKeys(out.desired)
            && Keys(out.desired) == Keys(acc.desired) + {KeyOf(rr)}
            && Exacts(out.desired) <= Exacts(acc.desired) + {Wire(rr)}
            && Exacts(acc.desired) <= Exacts(out.desired)
            && (out.conflicts == acc.conflicts ==> Wire(rr) in Exacts(out.desired))
  {
    var q := acc.desired;
    KeepFirstList(acc, rr);
    if KeyOf(rr) !in Keys(q) {
      DistinctKeysGrow(q, rr);
      assert (q + [rr])[..|q|] == q;
      ItemsGrow(q + [rr]);
    }
  }

  /** Without a conflict the file's records survive exactly, each identity once; nothing
      is lost in the count. */
  lemma {:induction false} DedupExact(parsed: seq<Rr>)
    ensures DistinctKeys(Dedup(parsed).desired)
    ensures Keys(Dedup(parsed).desired) == Keys(parsed)
    ensures Dedup(parsed).conflicts == 0 ==> Exacts(Dedup(parsed).desired) == Exacts(parsed)
    ensures |parsed| == |Dedup(parsed).desired| + Dedup(parsed).skipped + Dedup(parsed).conflicts
  {
    if parsed != [] {
      DedupExact(parsed[..|parsed| - 1]);
      ItemsGrow(parsed);
      KeepFirstExact(Dedup(parsed[..|parsed| - 1]), parsed[|parsed| - 1]);
    }
  }

  // ---- The reconcile ---------------------------------------------------------------------

  predicate Wanted(desired: seq<Rr>, rr: Rr) { exists d | d in desired :: KeyOf(d) == KeyOf(rr) }

  predicate RrsetWanted(desired: seq<Rr>, rr: Rr) {
    exists d | d in desired :: d.owner == rr.owner && d.rtype == rr.rtype
  }

  /** A row the mode deletes. */
  predicate Obsolete(mode: Mode, meta: Meta, desired: seq<Rr>, rr: Rr) {
    match mode
    case Append => false
    case ReplaceZone => !Protected(meta, rr) && !Wanted(desired, rr)
    case Upsert => RrsetWanted(desired, rr) && !Protected(meta, rr) && !Wanted(desired, rr)
  }

  function Doomed(mode: Mode, meta: Meta, existing: seq<Row>, desired: seq<Rr>): seq<Row> {
    if existing == [] then []
    else
      Doomed(mode, meta, existing[..|existing| - 1], desired)
      + (if Obsolete(mode, meta, desired, existing[|existing| - 1].rr) then [existing[|existing| - 1]] else [])
  }

  /** Rows of a wanted record that carry another TTL. */
  function Stale(existing: seq<Row>, d: Rr): seq<Row> {
    if existing == [] then []
    else
      var e := existing[|existing| - 1];
      Stale(existing[..|existing| - 1], d) + (if KeyOf(e.rr) == KeyOf(d) && e.rr.ttl != d.ttl then [e] else [])
  }

  /** TTLs are reconciled only by the modes that replace. */
  function StaleFor(mode: Mode, existing: seq<Row>, d: Rr): seq<Row> {
    if mode == Append then [] else Stale(existing, d)
  }

  predicate Present(existing: seq<Row>, d: Rr) { exists e | e in existing :: KeyOf(e.rr) == KeyOf(d) }

  datatype Acc = Acc(ttlDels: seq<Row>, adds: seq<Rr>, updated: nat, untouched: nat)

  function Visit(mode: Mode, existing: seq<Row>, acc: Acc, d: Rr): Acc {
    var stale := StaleFor(mode, existing, d);
    if !Present(existing, d) then acc.(adds := acc.adds + [d])
    else if stale != [] then Acc(acc.ttlDels + stale, acc.adds + [d], acc.updated + 1, acc.untouched)
    else acc.(untouched := acc.untouched + 1)
  }

  function Walk(mode: Mode, existing: seq<Row>, desired: seq<Rr>): Acc {
    if desired == [] then Acc([], [], 0, 0)
    else Visit(mode, existing, Walk(mode, existing, desired[..|desired| - 1]), desired[|desired| - 1])
  }

  datatype Summary = Summary(parsed: nat, added: int, deleted: nat, updated: nat, untouched: nat)

  /** The plan of an import: what to delete, what to insert, the counts, the add errors. */
  datatype Reconciled = Reconciled(dels: seq<Row>, adds: seq<Rr>, summary: Summary, errors: seq<AddError>)

  function Resolve(mode: Mode, meta: Meta, existing: seq<Row>, desired: seq<Rr>): Reconciled {
    var doomed, acc := Doomed(mode, meta, existing, desired), Walk(mode, existing, desired);
    var dels := doomed + acc.ttlDels;
    Reconciled(dels, acc.adds,
           Summary(|desired|, |acc.adds| - acc.updated, |doomed|, acc.updated, acc.untouched),
           AddErrors(Without(existing, Ids(dels)), acc.adds))
  }

  /** The rows to delete and the records to insert. */
  function ToPlan(m: Reconciled): Plan { Plan(m.dels, m.adds) }

  // ---- What is deleted and added -----------------------------------------------------------

  lemma {:induction false} DoomedSpec(mode: Mode, meta: Meta, existing: seq<Row>, desired: seq<Rr>)
    ensures forall r :: r in Doomed(mode, meta, existing, desired) <==>
              r in existing && Obsolete(mode, meta, desired, r.rr)
  {
    if existing != [] {
      var n := |existing| - 1;
      assert existing == existing[..n] + [existing[n]];
      DoomedSpec(mode, meta, existing[..n], desired);
    }
  }

  lemma {:induction false} DoomedOnce(mode: Mode, meta: Meta, existing: seq<Row>, desired: seq<Rr>)
    requires UniqueIds(existing)
    ensures UniqueIds(Doomed(mode, meta, existing, desired))
  {
    if existing != [] {
      var n := |existing| - 1;
      DoomedOnce(mode, meta, existing[..n], desired);
      DoomedSpec(mode, meta, existing[..n], desired);
      var out := Doomed(mode, meta, existing[..n], desired);
      forall e | e in out ensures e.id != existing[n].id { var j :| 0 <= j < n && existing[j] == e; }
      UniqueIdsGrow(out, existing[n]);
    }
  }

  lemma {:induction false} StaleSpec(existing: seq<Row>, d: Rr)
    ensures forall r :: r in Stale(existing, d) <==> r in existing && KeyOf(r.rr) == KeyOf(d) && r.rr.ttl != d.ttl
  {
    if existing != [] {
      var n := |existing| - 1;
      assert existing == existing[..n] + [existing[n]];
      StaleSpec(existing[..n], d);
    }
  }

  lemma {:induction false} StaleOnce(existing: seq<Row>, d: Rr)
    requires KeysApart(existing)
    ensures |Stale(existing, d)| <= 1
  {
    if existing != [] {
      var n := |existing| - 1;
      forall i, j | 0 <= i < j < n ensures Apart(existing[..n], i, j) { assert Apart(existing, i, j); }
      StaleOnce(existing[..n], d);
      StaleSpec(existing[..n], d);
      var before := Stale(existing[..n], d);
      if before != [] {
        assert before[0] in before;
        var i :| 0 <= i < n && existing[i] == before[0];
        assert Apart(existing, i, n);
      }
    }
  }

  lemma SoundKeys(existing: seq<Row>)
    requires GoodRows(existing)
    ensures Sound(existing)
    ensures KeysApart(existing)
  {
    GoodIsSound(existing);
    History.CoherentKeys(existing);
  }

  /** No two rows share an id or an identity. */
  ghost predicate Tidy(rows: seq<Row>) {
    Sound(rows) && KeysApart(rows)
  }

  /** The record is held exactly, TTL included. */
  ghost predicate Exact(existing: seq<Row>, d: Rr) { exists e | e in existing :: Wire(e.rr) == Wire(d) }

  ghost predicate Added(mode: Mode, existing: seq<Row>, d: Rr) {
    if mode == Append then !Present(existing, d) else !Exact(existing, d)
  }

  ghost predicate Retimed(mode: Mode, desired: seq<Rr>, r: Row) {
    mode != Append && exists d | d in desired :: KeyOf(d) == KeyOf(r.rr) && d.ttl != r.rr.ttl
  }

  lemma VisitSpec(mode: Mode, existing: seq<Row>, acc: Acc, d: Rr)
    requires Tidy(existing)
    ensures var out := Visit(mode, existing, acc, d);
            && |out.adds| + out.untouched == |acc.adds| + acc.untouched + 1
            && |out.ttlDels| - out.updated == |acc.ttlDels| - acc.updated
            && out.adds == (if Added(mode, existing, d) then acc.adds + [d] else acc.adds)
            && out.ttlDels == acc.ttlDels + StaleFor(mode, existing, d)
    ensures |StaleFor(mode, existing, d)| <= 1
    ensures forall r :: r in StaleFor(mode, existing, d) <==>
              r in existing && mode != Append && KeyOf(r.rr) == KeyOf(d) && r.rr.ttl != d.ttl
  {
    var stale := StaleFor(mode, existing, d);
    StaleSpec(existing, d);
    StaleOnce(existing, d);
    var out := Visit(mode, existing, acc, d);
    if !Present(existing, d) {
      assert forall r :: r !in stale;
      SomeMember(stale);
      assert !Exact(existing, d);
    } else {
      var e :| e in existing && KeyOf(e.rr) == KeyOf(d);
      if stale != [] {
        assert stale[0] in stale;
        assert stale[0] == e;
      } else {
        assert mode != Append ==> e !in stale;
      }
    }
    assert out.ttlDels == acc.ttlDels + stale;
  }

  lemma {:induction false} WalkCounts(mode: Mode, existing: seq<Row>, desired: seq<Rr>)
    requires Tidy(existing)
    ensures |Walk(mode, existing, desired).adds| + Walk(mode, existing, desired).untouched == |desired|
    ensures |Walk(mode, existing, desired).ttlDels| == Walk(mode, existing, desired).updated
    ensures forall d :: d in Walk(mode, existing, desired).adds <==> d in desired && Added(mode, existing, d)
  {
    if desired != [] {
      var n := |desired| - 1;
      WalkCounts(mode, existing, desired[..n]);
      VisitSpec(mode, existing, Walk(mode, existing, desired[..n]), desired[n]);
      assert desired == desired[..n] + [desired[n]];
    }
  }

  lemma RetimedGrows(mode: Mode, desired: seq<Rr>, r: Row)
    requires desired != []
    ensures var n := |desired| - 1;
            Retimed(mode, desired, r) <==>
            || Retimed(mode, desired[..n], r)
            || (mode != Append && KeyOf(desired[n]) == KeyOf(r.rr) && desired[n].ttl != r.rr.ttl)
  {
    assert desired == desired[..|desired| - 1] + [desired[|desired| - 1]];
  }

  /** Rows retimed for earlier records are not rows of the last one. */
  lemma RetimedApart(mode: Mode, existing: seq<Row>, desired: seq<Rr>, x: Row, y: Row)
    requires Sound(existing) && DistinctKeys(desired) && desired != [] && x in existing && y in existing
    requires Retimed(mode, desired[..|desired| - 1], x) && KeyOf(y.rr) == KeyOf(desired[|desired| - 1])
    ensures x.id != y.id
  {
    var n := |desired| - 1;
    var e :| e in desired[..n] && KeyOf(e) == KeyOf(x.rr);
    var i :| 0 <= i < n && desired[i] == e;
    assert KeyOf(desired[i]) != KeyOf(desired[n]);
  }

  lemma {:induction false} WalkDels(mode: Mode, existing: seq<Row>, desired: seq<Rr>)
    requires Tidy(existing) && DistinctKeys(desired)
    ensures Listed(Walk(mode, existing, desired).ttlDels, existing)
    ensures forall r :: r in Walk(mode, existing, desired).ttlDels <==> r in existing && Retimed(mode, desired, r)
  {
    if desired != [] {
      var n := |desired| - 1;
      var before, d := Walk(mode, existing, desired[..n]), desired[n];
      WalkDels(mode, existing, desired[..n]);
      var stale := StaleFor(mode, existing, d);
      assert Walk(mode, existing, desired).ttlDels == before.ttlDels + stale by {
        VisitSpec(mode, existing, before, d);
      }
      StaleListed(mode, existing, d);
      forall x, y | x in before.ttlDels && y in stale ensures x.id != y.id {
        RetimedApart(mode, existing, desired, x, y);
      }
      ListedAppend(existing, before.ttlDels, stale);
      forall r ensures r in before.ttlDels + stale <==> r in existing && Retimed(mode, desired, r) {
        RetimedGrows(mode, desired, r);
      }
    }
  }

  lemma StaleListed(mode: Mode, existing: seq<Row>, d: Rr)
    requires Tidy(existing)
    ensures Listed(StaleFor(mode, existing, d), existing)
    ensures forall r :: r in StaleFor(mode, existing, d) <==>
              r in existing && mode != Append && KeyOf(r.rr) == KeyOf(d) && r.rr.ttl != d.ttl
  {
    VisitSpec(mode, existing, Acc([], [], 0, 0), d);
  }

  lemma ListedAppend(rows: seq<Row>, a: seq<Row>, b: seq<Row>)
    requires Listed(a, rows) && Listed(b, rows)
    requires forall x, y | x in a && y in b :: x.id != y.id
    ensures Listed(a + b, rows)
  {
    assert forall i | 0 <= i < |a| :: a[i] in a;
    assert forall i | 0 <= i < |b| :: b[i] in b;
  }

  /** The import deletes each row at most once: the obsolete ones and the retimed ones. */
  lemma DelsSpec(mode: Mode, meta: Meta, existing: seq<Row>, desired: seq<Rr>)
    requires GoodRows(existing) && DistinctKeys(desired)
    ensures Listed(Resolve(mode, meta, existing, desired).dels, existing)
    ensures forall r :: r in Resolve(mode, meta, existing, desired).dels <==>
              r in existing && (Obsolete(mode, meta, desired, r.rr) || Retimed(mode, desired, r))
  {
    SoundKeys(existing);
    DoomedSpec(mode, meta, existing, desired);
    DoomedOnce(mode, meta, existing, desired);
    WalkDels(mode, existing, desired);
    var doomed, ttl := Doomed(mode, meta, existing, desired), Walk(mode, existing, desired).ttlDels;
    forall x, y | x in doomed && y in ttl ensures x.id != y.id {
      assert Wanted(desired, y.rr) && !Wanted(desired, x.rr);
    }
    ListedAppend(existing, doomed, ttl);
  }

  // ---- What the import means ------------------------------------------------------------------

  /** The records an import is specified to leave. Appending adds what is new and keeps the
      rest; the other modes install the file and keep protected rows and, for upsert, RRsets
      the file does not mention. */
  ghost predicate Target(mode: Mode, meta: Meta, existing: seq<Row>, desired: seq<Rr>, w: WireRr) {
    if mode == Append then
      || (exists r | r in existing :: Wire(r.rr) == w)
      || (exists d | d in desired :: Wire(d) == w && !Present(existing, d))
    else
      || (exists d | d in desired :: Wire(d) == w)
      || (exists r | r in existing ::
            && Wire(r.rr) == w && !Wanted(desired, r.rr)
            && (Protected(meta, r.rr) || (mode == Upsert && !RrsetWanted(desired, r.rr))))
  }

  lemma ResultRrs(existing: seq<Row>, m: Reconciled, next: int)
    requires Sound(existing) && Listed(m.dels, existing)
    ensures forall rr :: rr in Rrs(After(existing, ToPlan(m), next)) <==>
              (exists r | r in existing :: r !in m.dels && r.rr == rr) || rr in m.adds
  {
    AfterRrs(existing, Plan(m.dels, m.adds), next);
  }

  /** Every mode leaves exactly the records it is specified to leave. */
  lemma ImportMeaning(mode: Mode, meta: Meta, existing: seq<Row>, desired: seq<Rr>, next: int, w: WireRr)
    requires GoodRows(existing) && DistinctKeys(desired)
    ensures w in WireSet(Rrs(After(existing, ToPlan(Resolve(mode, meta, existing, desired)), next)))
            <==> Target(mode, meta, existing, desired, w)
  {
    var m := Resolve(mode, meta, existing, desired);
    DelsSpec(mode, meta, existing, desired);
    SoundKeys(existing);
    WalkCounts(mode, existing, desired);
    ResultWires(existing, m, next, w);
    if Left(existing, m, w) { MeaningIn(mode, meta, existing, desired, m, w); }
    if Target(mode, meta, existing, desired, w) { MeaningOut(mode, meta, existing, desired, m, w); }
  }

  lemma ResultWires(existing: seq<Row>, m: Reconciled, next: int, w: WireRr)
    requires Sound(existing) && Listed(m.dels, existing)
    ensures w in WireSet(Rrs(After(existing, ToPlan(m), next))) <==> Left(existing, m, w)
  {
    ResultRrs(existing, m, next);
    var out := Rrs(After(existing, ToPlan(m), next));
    if w in WireSet(out) {
      var rr :| rr in out && Wire(rr) == w;
    }
    if exists r | r in existing :: r !in m.dels && Wire(r.rr) == w {
      var r :| r in existing && r !in m.dels && Wire(r.rr) == w;
      assert r.rr in out;
    }
    if exists d | d in m.adds :: Wire(d) == w {
      var d :| d in m.adds && Wire(d) == w;
      assert d in out;
    }
  }

  ghost predicate Left(existing: seq<Row>, m: Reconciled, w: WireRr) {
    (exists r | r in existing :: r !in m.dels && Wire(r.rr) == w) || (exists d | d in m.adds :: Wire(d) == w)
  }

  ghost predicate Planned(mode: Mode, meta: Meta, existing: seq<Row>, desired: seq<Rr>, m: Reconciled) {
    && (forall r :: r in m.dels <==>
          r in existing && (Obsolete(mode, meta, desired, r.rr) || Retimed(mode, desired, r)))
    && (forall d :: d in m.adds <==> d in desired && Added(mode, existing, d))
  }

  lemma MeaningIn(mode: Mode, meta: Meta, existing: seq<Row>, desired: seq<Rr>, m: Reconciled, w: WireRr)
    requires Planned(mode, meta, existing, desired, m) && Left(existing, m, w)
    ensures Target(mode, meta, existing, desired, w)
  {
    if exists r | r in existing :: r !in m.dels && Wire(r.rr) == w {
      var r :| r in existing && r !in m.dels && Wire(r.rr) == w;
      if mode != Append && Wanted(desired, r.rr) {
        var d :| d in desired && KeyOf(d) == KeyOf(r.rr);
        assert d.ttl == r.rr.ttl;
        assert Wire(d) == w;
      }
    } else {
      var d :| d in m.adds && Wire(d) == w;
      assert d in desired;
    }
  }

  lemma MeaningOut(mode: Mode, meta: Meta, existing: seq<Row>, desired: seq<Rr>, m: Reconciled, w: WireRr)
    requires Planned(mode, meta, existing, desired, m) && DistinctKeys(desired)
    requires Target(mode, meta, existing, desired, w)
    ensures Left(existing, m, w)
  {
    if mode == Append {
      if exists r | r in existing :: Wire(r.rr) == w {
        var r :| r in existing && Wire(r.rr) == w;
        assert r !in m.dels;
      } else {
        var d :| d in desired && Wire(d) == w && !Present(existing, d);
        assert d in m.adds;
      }
    } else if exists d | d in desired :: Wire(d) == w {
      var d :| d in desired && Wire(d) == w;
      if Exact(existing, d) {
        var e :| e in existing && Wire(e.rr) == Wire(d);
        assert Wanted(desired, e.rr);
        assert !Retimed(mode, desired, e) by {
          forall x | x in desired && KeyOf(x) == KeyOf(e.rr) ensures x == d {
            var i :| 0 <= i < |desired| && desired[i] == x;
            var j :| 0 <= j < |desired| && desired[j] == d;
          }
        }
        assert e !in m.dels;
      } else {
        assert d in m.adds;
      }
    } else {
      var r :| r in existing && Wire(r.rr) == w && !Wanted(desired, r.rr)
               && (Protected(meta, r.rr) || (mode == Upsert && !RrsetWanted(desired, r.rr)));
      assert r !in m.dels;
    }
  }

  // ---- Consequences -------------------------------------------------------------------------------

  /** An accepted import leaves a coherent zone that still has its primary NS. */
  lemma ImportValid(mode: Mode, meta: Meta, existing: seq<Row>, desired: seq<Rr>, next: int)
    requires GoodRows(existing) && DistinctKeys(desired) && ServesPrimary(meta, Rrs(existing))
    requires Resolve(mode, meta, existing, desired).errors == []
    ensures Coherent(After(existing, ToPlan(Resolve(mode, meta, existing, desired)), next))
    ensures ServesPrimary(meta, Rrs(After(existing, ToPlan(Resolve(mode, meta, existing, desired)), next)))
  {
    var m := Resolve(mode, meta, existing, desired);
    AcceptedCoherent(existing, Plan(m.dels, m.adds), next);
    var rr :| rr in Rrs(existing) && IsPrimaryNs(meta, rr);
    var row :| row in existing && row.rr == rr;
    var w := if mode != Append && Wanted(desired, rr) then Wire(Match(desired, rr)) else Wire(rr);
    ImportMeaning(mode, meta, existing, desired, next, w);
    assert Target(mode, meta, existing, desired, w);
    var kept :| kept in Rrs(After(existing, ToPlan(m), next)) && Wire(kept) == w;
    assert IsPrimaryNs(meta, kept);
  }

  ghost function Match(desired: seq<Rr>, rr: Rr): (d: Rr)
    requires Wanted(desired, rr)
    ensures d in desired && KeyOf(d) == KeyOf(rr)
  { var d :| d in desired && KeyOf(d) == KeyOf(rr); d }

  lemma LastIdFresh(rows: seq<Row>)
    requires rows != [] && UniqueIds(rows)
    ensures UniqueIds(rows[..|rows| - 1])
    ensures forall e | e in rows[..|rows| - 1] :: e.id != rows[|rows| - 1].id
    ensures forall e | e in rows && e.id == rows[|rows| - 1].id :: e == rows[|rows| - 1]
  {
    var n := |rows| - 1;
    assert rows == rows[..n] + [rows[n]];
    forall e | e in rows[..n] ensures e.id != rows[n].id { var i :| 0 <= i < n && rows[i] == e; }
  }

  /** Taking the last row off the table takes it off the list of deletions too. */
  lemma DropLast(rows: seq<Row>, dels: seq<Row>) returns (rest: seq<Row>)
    requires rows != [] && UniqueIds(rows) && Listed(dels, rows)
    ensures Listed(rest, rows[..|rows| - 1])
    ensures |rest| == if rows[|rows| - 1].id in Ids(dels) then |dels| - 1 else |dels|
    ensures forall r | r in rows[..|rows| - 1] :: r.id in Ids(dels) <==> r.id in Ids(rest)
  {
    var n := |rows| - 1;
    LastIdFresh(rows);
    assert rows == rows[..n] + [rows[n]];
    if rows[n].id in Ids(dels) {
      var d :| d in dels && d.id == rows[n].id;
      var j :| 0 <= j < |dels| && dels[j] == d;
      RemoveAt(dels, j);
      rest := dels[..j] + dels[j + 1..];
    } else {
      rest := dels;
    }
  }

  lemma {:induction false} WithoutCount(rows: seq<Row>, dels: seq<Row>)
    requires UniqueIds(rows) && Listed(dels, rows)
    ensures |Without(rows, Ids(dels))| == |rows| - |dels|
    decreases |rows|
  {
    if rows == [] {
      SomeMember(dels);
    } else {
      var n := |rows| - 1;
      var rest := DropLast(rows, dels);
      LastIdFresh(rows);
      WithoutCount(rows[..n], rest);
      SameWithout(rows[..n], Ids(dels), Ids(rest));
    }
  }

  lemma {:induction false} SameWithout(rows: seq<Row>, a: set<int>, b: set<int>)
    requires forall r | r in rows :: r.id in a <==> r.id in b
    ensures Without(rows, a) == Without(rows, b)
  {
    if rows != [] {
      assert rows[|rows| - 1] in rows;
      SameWithout(rows[..|rows| - 1], a, b);
    }
  }

  /** The counts add up, and the number of rows changes by added minus deleted. */
  lemma CountsAddUp(mode: Mode, meta: Meta, existing: seq<Row>, desired: seq<Rr>, next: int)
    requires GoodRows(existing) && DistinctKeys(desired)
    ensures var m := Resolve(mode, meta, existing, desired);
            && m.summary.parsed == m.summary.added + m.summary.updated + m.summary.untouched
            && 0 <= m.summary.added
            && |After(existing, ToPlan(m), next)| == |existing| + m.summary.added - m.summary.deleted
  {
    SoundKeys(existing);
    DelsSpec(mode, meta, existing, desired);
    WalkCounts(mode, existing, desired);
    UpdatesAreAdds(mode, existing, desired);
    WithoutCount(existing, Resolve(mode, meta, existing, desired).dels);
  }

  lemma {:induction false} UpdatesAreAdds(mode: Mode, existing: seq<Row>, desired: seq<Rr>)
    ensures Walk(mode, existing, desired).updated <= |Walk(mode, existing, desired).adds|
  {
    if desired != [] { UpdatesAreAdds(mode, existing, desired[..|desired| - 1]); }
  }

  /** The file is installed: nothing to delete, nothing to retime, nothing to add. */
  ghost predicate Installed(mode: Mode, meta: Meta, rows: seq<Row>, desired: seq<Rr>) {
    && (forall d | d in desired :: !Added(mode, rows, d))
    && (forall r | r in rows :: !Obsolete(mode, meta, desired, r.rr) && !Retimed(mode, desired, r))
  }

  lemma InstalledIsQuiet(mode: Mode, meta: Meta, rows: seq<Row>, desired: seq<Rr>)
    requires GoodRows(rows) && DistinctKeys(desired) && Installed(mode, meta, rows, desired)
    ensures var m := Resolve(mode, meta, rows, desired); m.dels == [] && m.adds == [] && m.errors == []
  {
    var m := Resolve(mode, meta, rows, desired);
    SoundKeys(rows);
    DelsSpec(mode, meta, rows, desired);
    WalkCounts(mode, rows, desired);
    SomeMember(m.dels);
    SomeMember(m.adds);
  }

  lemma SameKeyMeans(meta: Meta, desired: seq<Rr>, a: Rr, b: Rr)
    requires KeyOf(a) == KeyOf(b)
    ensures Protected(meta, a) == Protected(meta, b)
    ensures Wanted(desired, a) == Wanted(desired, b)
    ensures RrsetWanted(desired, a) == RrsetWanted(desired, b)
  {
  }

  /** Importing the same file again changes nothing. */
  lemma ImportIdempotent(mode: Mode, meta: Meta, existing: seq<Row>, desired: seq<Rr>, next: int)
    requires GoodRows(existing) && DistinctKeys(desired) && (forall r | r in existing :: r.id < next)
    requires Resolve(mode, meta, existing, desired).errors == []
    ensures var out := After(existing, ToPlan(Resolve(mode, meta, existing, desired)), next);
            var again := Resolve(mode, meta, out, desired);
            again.dels == [] && again.adds == [] && again.errors == []
  {
    var m := Resolve(mode, meta, existing, desired);
    var out := After(existing, ToPlan(m), next);
    AcceptedCoherent(existing, Plan(m.dels, m.adds), next);
    WithoutCoherent(existing, Ids(m.dels));
    assert UniqueIds(out) by {
      var kept := Without(existing, Ids(m.dels));
      forall i | 0 <= i < |kept| ensures kept[i].id < next { assert kept[i] in kept; }
    }
    forall d | d in desired ensures !Added(mode, out, d) { StaysAdded(mode, meta, existing, desired, next, d); }
    GoodIsSound(out);
    forall r | r in out ensures !Obsolete(mode, meta, desired, r.rr) && !Retimed(mode, desired, r) {
      StaysKept(mode, meta, existing, desired, next, r);
    }
    InstalledIsQuiet(mode, meta, out, desired);
  }

  lemma StaysAdded(mode: Mode, meta: Meta, existing: seq<Row>, desired: seq<Rr>, next: int, d: Rr)
    requires GoodRows(existing) && DistinctKeys(desired) && d in desired
    ensures !Added(mode, After(existing, ToPlan(Resolve(mode, meta, existing, desired)), next), d)
  {
    var out := After(existing, ToPlan(Resolve(mode, meta, existing, desired)), next);
    if mode == Append && Present(existing, d) {
      var e :| e in existing && KeyOf(e.rr) == KeyOf(d);
      ImportMeaning(mode, meta, existing, desired, next, Wire(e.rr));
      var rr :| rr in Rrs(out) && Wire(rr) == Wire(e.rr);
      var r :| r in out && r.rr == rr;
      assert KeyOf(r.rr) == KeyOf(d);
    } else {
      ImportMeaning(mode, meta, existing, desired, next, Wire(d));
      assert Target(mode, meta, existing, desired, Wire(d));
      var rr :| rr in Rrs(out) && Wire(rr) == Wire(d);
      var r :| r in out && r.rr == rr;
      assert KeyOf(r.rr) == KeyOf(d);
    }
  }

  lemma StaysKept(mode: Mode, meta: Meta, existing: seq<Row>, desired: seq<Rr>, next: int, r: Row)
    requires GoodRows(existing) && DistinctKeys(desired)
    requires r in After(existing, ToPlan(Resolve(mode, meta, existing, desired)), next)
    requires Sound(After(existing, ToPlan(Resolve(mode, meta, existing, desired)), next))
    ensures !Obsolete(mode, meta, desired, r.rr) && !Retimed(mode, desired, r)
  {
    if mode != Append {
      var out := After(existing, ToPlan(Resolve(mode, meta, existing, desired)), next);
      assert r.rr in Rrs(out) && Wire(r.rr) in WireSet(Rrs(out));
      ImportMeaning(mode, meta, existing, desired, next, Wire(r.rr));
      if exists d | d in desired :: Wire(d) == Wire(r.rr) {
        var d :| d in desired && Wire(d) == Wire(r.rr);
        assert Wanted(desired, r.rr);
      } else {
        var e :| e in existing && Wire(e.rr) == Wire(r.rr) && !Wanted(desired, e.rr)
                 && (Protected(meta, e.rr) || (mode == Upsert && !RrsetWanted(desired, e.rr)));
        SameKeyMeans(meta, desired, e.rr, r.rr);
      }
      forall d | d in desired && KeyOf(d) == KeyOf(r.rr) ensures d.ttl == r.rr.ttl {
        StaysAdded(mode, meta, existing, desired, next, d);
        var e :| e in out && Wire(e.rr) == Wire(d);
        assert e == r;
      }
    }
  }

  // ---- What the whole file means ------------------------------------------------------------------------

  /** The zone holds exactly the records importing the file is specified to leave. */
  ghost predicate Imports(mode: Mode, meta: Meta, before: seq<Row>, file: seq<Rr>, after: seq<Row>) {
    HoldsTarget(mode, meta, before, file, after) == true
  }

  ghost predicate HoldsTarget(mode: Mode, meta: Meta, before: seq<Row>, file: seq<Rr>, after: seq<Row>) {
    forall w :: w in WireSet(Rrs(after)) <==> Target(mode, meta, before, file, w)
  }

  /** The counts add up, and the number of rows changes by added minus deleted. */
  ghost predicate Tallies(sum: Summary, before: int, after: int) {
    sum.parsed == sum.added + sum.updated + sum.untouched && 0 <= sum.added && after == before + sum.added - sum.deleted
  }

  lemma WantedOf(desired: seq<Rr>, rr: Rr)
    ensures Wanted(desired, rr) <==> KeyOf(rr) in Keys(desired)
    ensures RrsetWanted(desired, rr) <==> exists k | k in Keys(desired) :: k.owner == rr.owner && k.rtype == rr.rtype
  {
    if d :| d in desired && d.owner == rr.owner && d.rtype == rr.rtype { assert KeyOf(d) in Keys(desired); }
    if k :| k in Keys(desired) && k.owner == rr.owner && k.rtype == rr.rtype {
      var d :| d in desired && KeyOf(d) == k;
    }
  }

  /** Two lists of the same records mean the same import. */
  lemma SameTarget(mode: Mode, meta: Meta, existing: seq<Row>, a: seq<Rr>, b: seq<Rr>, w: WireRr)
    requires Exacts(a) == Exacts(b) && Keys(a) == Keys(b) && Target(mode, meta, existing, a, w)
    ensures Target(mode, meta, existing, b, w)
  {
    if d :| d in a && Wire(d) == w && (mode == Append ==> !Present(existing, d)) {
      assert w in Exacts(b);
      var e :| e in b && Wire(e) == w;
      assert Present(existing, e) == Present(existing, d);
    } else if mode != Append {
      var r :| r in existing && Wire(r.rr) == w && !Wanted(a, r.rr)
               && (Protected(meta, r.rr) || (mode == Upsert && !RrsetWanted(a, r.rr)));
      WantedOf(a, r.rr);
      WantedOf(b, r.rr);
    }
  }

  /** An accepted import leaves what the file, duplicates and all, is specified to leave. */
  lemma FileMeans(mode: Mode, meta: Meta, existing: seq<Row>, parsed: seq<Rr>, m: Reconciled, next: int)
    requires GoodRows(existing) && Dedup(parsed).conflicts == 0
    requires m == Resolve(mode, meta, existing, Dedup(parsed).desired)
    ensures Imports(mode, meta, existing, parsed, After(existing, ToPlan(m), next))
    ensures Tallies(m.summary, |existing|, |After(existing, ToPlan(m), next)|)
  {
    var desired := Dedup(parsed).desired;
    DedupExact(parsed);
    CountsAddUp(mode, meta, existing, desired, next);
    var out := After(existing, ToPlan(m), next);
    forall w ensures w in WireSet(Rrs(out)) <==> Target(mode, meta, existing, parsed, w) {
      ImportMeaning(mode, meta, existing, desired, next, w);
      if Target(mode, meta, existing, desired, w) { SameTarget(mode, meta, existing, desired, parsed, w); }
      if Target(mode, meta, existing, parsed, w) { SameTarget(mode, meta, existing, parsed, desired, w); }
    }
  }

  lemma NoChange(existing: seq<Row>, m: Reconciled, next: int)
    requires m.dels == [] && m.adds == []
    ensures After(existing, ToPlan(m), next) == existing
  {
    WithoutNone(existing, Ids([]));
  }

  // ---- Append loads only the rows at the file's owner names -------------------------------------------

  lemma {:induction false} WalkNear(existing: seq<Row>, names: set<Owner>, desired: seq<Rr>)
    requires forall d | d in desired :: d.owner in names
    ensures Walk(Append, OfOwners(existing, names), desired) == Walk(Append, existing, desired)
    ensures Walk(Append, existing, desired).ttlDels == []
    ensures forall d | d in Walk(Append, existing, desired).adds :: d in desired
  {
    if desired != [] {
      var n := |desired| - 1;
      WalkNear(existing, names, desired[..n]);
      assert desired[n] in desired;
      assert Present(OfOwners(existing, names), desired[n]) == Present(existing, desired[n]);
    }
  }

  lemma {:induction false} AppendDoomsNone(meta: Meta, existing: seq<Row>, desired: seq<Rr>)
    ensures Doomed(Append, meta, existing, desired) == []
  {
    if existing != [] { AppendDoomsNone(meta, existing[..|existing| - 1], desired); }
  }

  lemma {:induction false} WithoutNone(rows: seq<Row>, ids: set<int>)
    requires forall r | r in rows :: r.id !in ids
    ensures Without(rows, ids) == rows
  {
    if rows != [] {
      var n := |rows| - 1;
      assert rows[..n] + [rows[n]] == rows;
      WithoutNone(rows[..n], ids);
      assert rows[n] in rows;
    }
  }

  /** An append computes the same deletions, adds, counts and errors from the rows sharing an
      owner name with the file as from the whole zone. */
  lemma RestrictedAppend(meta: Meta, existing: seq<Row>, desired: seq<Rr>)
    ensures Resolve(Append, meta, OfOwners(existing, set d | d in desired :: d.owner), desired)
         == Resolve(Append, meta, existing, desired)
  {
    var names := set d | d in desired :: d.owner;
    var near := OfOwners(existing, names);
    WalkNear(existing, names, desired);
    AppendDoomsNone(meta, existing, desired);
    AppendDoomsNone(meta, near, desired);
    var adds := Walk(Append, existing, desired).adds;
    assert AddErrors(Without(near, Ids([])), adds) == AddErrors(Without(existing, Ids([])), adds) by {
      WithoutNone(existing, Ids([]));
      WithoutNone(near, Ids([]));
      forall rr | rr in adds ensures SameAt(near, existing, rr.owner) { assert rr in desired; }
      RestrictedBatch(near, existing, adds);
    }
    assert [] + Walk(Append, existing, desired).ttlDels == [];
  }

  // ---- The loops ----------------------------------------------------------------------------------------

  method DedupFile(parsed: seq<Rr>) returns (out: Deduped)
    ensures out == Dedup(parsed)
  {
    out := Deduped([], 0, 0);
    for i := 0 to |parsed|
      invariant out == Dedup(parsed[..i])
    {
      assert parsed[..i + 1][..i] == parsed[..i];
      var rr := parsed[i];
      if exists d | d in out.desired :: KeyOf(d) == KeyOf(rr) && d.ttl == rr.ttl {
        out := out.(skipped := out.skipped + 1);
      } else if exists d | d in out.desired :: KeyOf(d) == KeyOf(rr) {
        out := out.(conflicts := out.conflicts + 1);
      } else {
        out := out.(desired := out.desired + [rr]);
      }
    }
    assert parsed[..|parsed|] == parsed;
  }

  method ModeDeletions(mode: Mode, meta: Meta, existing: seq<Row>, desired: seq<Rr>) returns (dels: seq<Row>)
    ensures dels == Doomed(mode, meta, existing, desired)
  {
    dels := [];
    for i := 0 to |existing|
      invariant dels == Doomed(mode, meta, existing[..i], desired)
    {
      assert existing[..i + 1][..i] == existing[..i];
      if Obsolete(mode, meta, desired, existing[i].rr) { dels := dels + [existing[i]]; }
    }
    assert existing[..|existing|] == existing;
  }

  /** The rows of each owner, in table order. */
  method GroupByOwner(existing: seq<Row>) returns (index: map<Owner, seq<Row>>)
    ensures forall o :: Near(index, o) == OfOwners(existing, {o})
  {
    index := map[];
    for i := 0 to |existing|
      invariant forall o :: Near(index, o) == OfOwners(existing[..i], {o})
    {
      assert existing[..i + 1][..i] == existing[..i];
      ghost var before := index;
      var o := existing[i].rr.owner;
      index := index[o := Near(index, o) + [existing[i]]];
      forall p ensures Near(index, p) == OfOwners(existing[..i + 1], {p}) {
        assert Near(before, p) == OfOwners(existing[..i], {p});
      }
    }
    assert existing[..|existing|] == existing;
  }

  lemma {:induction false} StaleNear(existing: seq<Row>, d: Rr)
    ensures Stale(OfOwners(existing, {d.owner}), d) == Stale(existing, d)
    ensures Present(OfOwners(existing, {d.owner}), d) == Present(existing, d)
  {
    if existing != [] {
      var n := |existing| - 1;
      StaleNear(existing[..n], d);
      var near := OfOwners(existing[..n], {d.owner});
      if existing[n].rr.owner == d.owner {
        assert (near + [existing[n]])[..|near|] == near;
      } else {
        assert near + [] == near;
      }
    }
  }

  /** Compare one wanted record with the rows at its owner. */
  method Compare(mode: Mode, rows: seq<Row>, d: Rr) returns (present: bool, stale: seq<Row>)
    ensures present == Present(rows, d)
    ensures stale == StaleFor(mode, rows, d)
  {
    present, stale := false, [];
    for i := 0 to |rows|
      invariant present == Present(rows[..i], d)
      invariant stale == StaleFor(mode, rows[..i], d)
    {
      assert rows[..i + 1][..i] == rows[..i];
      assert rows[..i + 1] == rows[..i] + [rows[i]];
      if KeyOf(rows[i].rr) == KeyOf(d) {
        present := true;
        if mode != Append && rows[i].rr.ttl != d.ttl { stale := stale + [rows[i]]; }
      }
    }
    assert rows[..|rows|] == rows;
  }

  lemma VisitNear(mode: Mode, existing: seq<Row>, acc: Acc, d: Rr)
    ensures Visit(mode, OfOwners(existing, {d.owner}), acc, d) == Visit(mode, existing, acc, d)
  {
    StaleNear(existing, d);
  }

  method VisitOne(mode: Mode, near: seq<Row>, before: Acc, d: Rr) returns (acc: Acc)
    ensures acc == Visit(mode, near, before, d)
  {
    var present, stale := Compare(mode, near, d);
    if !present {
      acc := before.(adds := before.adds + [d]);
    } else if stale != [] {
      acc := Acc(before.ttlDels + stale, before.adds + [d], before.updated + 1, before.untouched);
    } else {
      acc := before.(untouched := before.untouched + 1);
    }
  }

  method WalkDesired(mode: Mode, existing: seq<Row>, desired: seq<Rr>) returns (acc: Acc)
    ensures acc == Walk(mode, existing, desired)
  {
    var index := GroupByOwner(existing);
    acc := Acc([], [], 0, 0);
    for i := 0 to |desired|
      invariant acc == Walk(mode, existing, desired[..i])
    {
      assert desired[..i + 1][..i] == desired[..i];
      VisitNear(mode, existing, acc, desired[i]);
      acc := VisitOne(mode, Near(index, desired[i].owner), acc, desired[i]);
    }
    assert desired[..|desired|] == desired;
  }

  /** The reconcile of `import_zone_file` on a deduplicated file. */
  method ResolveImport(mode: Mode, meta: Meta, existing: seq<Row>, desired: seq<Rr>) returns (m: Reconciled)
    ensures m == Resolve(mode, meta, existing, desired)
  {
    var doomed := ModeDeletions(mode, meta, existing, desired);
    var acc := WalkDesired(mode, existing, desired);
    var errors := CheckAdds(Without(existing, Ids(doomed + acc.ttlDels)), acc.adds);
    m := Reconciled(doomed + acc.ttlDels, acc.adds,
                    Summary(|desired|, |acc.adds| - acc.updated, |doomed|, acc.updated, acc.untouched), errors);
  }
}
