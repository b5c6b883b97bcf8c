/** One zone's tables and the operations on them. Every method that commits extends the run
    in `history` by one legal step; every method that refuses leaves the zone as it was. */
module Store {
  import opened Records
  import opened Zone
  import opened Transaction
  import opened Batch
  import opened ZoneService
  import History
  import Ixfr
  import Transfer
  import ExternalDns
  import Import
  import Diff
  import DynamicUpdate
  import Preview
  import UpdateScan
  import Rollback

  predicate HasId(rows: seq<Row>, id: int) { exists r | r in rows :: r.id == id }

  // ---- Facts the methods use, stated over the run -------------------------------------------

  lemma CreatedRun(m: Meta, first: int)
    requires MetaOk(m) && 1 <= first <= MAX_SERIAL
    ensures IsRun([State(m, first, [Row(1, PrimaryNsRr(m, m.ttl))], 2, [], map[first := SnapshotOf(m)])])
  {
    var s := State(m, first, [Row(1, PrimaryNsRr(m, m.ttl))], 2, [], map[first := SnapshotOf(m)]);
    assert s.rows[0] in s.rows;
    assert s.rows[0].rr in Rrs(s.rows) && IsPrimaryNs(m, s.rows[0].rr);
    assert StepAt([s], 0);
  }

  lemma RunGood(h: seq<State>, i: nat)
    requires IsRun(h) && i < |h|
    ensures ExternalDns.GoodRows(h[i].rows)
    ensures ServesPrimary(h[i].meta, Rrs(h[i].rows)) && MetaOk(h[i].meta)
    ensures forall r | r in h[i].rows :: r.id < h[i].nextId
    ensures forall r | r in h[i].rows :: r.rr.rtype != SOA
  {
    RunValid(h, i);
  }

  lemma NowGood(h: seq<State>, s: State)
    requires IsRun(h) && s == h[|h| - 1]
    ensures ExternalDns.GoodRows(s.rows)
  {
    RunGood(h, |h| - 1);
  }

  /** A bulk request meets the same errors against the rows at its own owner names as
      against the whole zone. */
  lemma BulkNear(rows: seq<Row>, items: seq<Item>, ttl: int)
    ensures AddErrors(OfOwners(rows, set it | it in items :: it.owner), ItemRrs(items, ttl))
         == AddErrors(rows, ItemRrs(items, ttl))
  {
    var adds, names := ItemRrs(items, ttl), set it | it in items :: it.owner;
    forall rr | rr in adds ensures SameAt(OfOwners(rows, names), rows, rr.owner) {
      var i :| 0 <= i < |adds| && adds[i] == rr;
      assert items[i] in items;
    }
    RestrictedBatch(OfOwners(rows, names), rows, adds);
  }

  /** The batch check accepts exactly what leaves the whole zone coherent. */
  lemma BulkVerdict(h: seq<State>, s: State, adds: seq<Rr>)
    requires IsRun(h) && s == h[|h| - 1]
    ensures AddErrors(s.rows, adds) == [] <==> Coherent(s.rows + Numbered(adds, s.nextId))
  {
    RunGood(h, |h| - 1);
    BatchExact(s.rows, adds, s.nextId);
  }

  /** The checks on the items of a batch, from the rows at their owner names: the first error
      that checking them against the whole zone meets. */
  method CheckItems(s: State, items: seq<Item>) returns (r: Option<AddError>)
    ensures var errors := AddErrors(s.rows, ItemRrs(items, s.meta.ttl));
            r == if errors == [] then None else Some(errors[0])
  {
    var errors := CheckAdds(OfOwners(s.rows, set it | it in items :: it.owner), ItemRrs(items, s.meta.ttl));
    BulkNear(s.rows, items, s.meta.ttl);
    r := if errors == [] then None else Some(errors[0]);
  }

  /** What a batch is answered: the checks in order, and the first record that does not fit. */
  function BulkReply(s: State, items: seq<Item>): Option<ServiceError> {
    if items == [] then Some(InvalidInput)
    else if s.serial >= MAX_SERIAL then Some(SerialExhausted)
    else
      var errors := AddErrors(s.rows, ItemRrs(items, s.meta.ttl));
      if errors == [] then None else Some(AddRefused(errors[0]))
  }

  /** An accepted ExternalDNS plan keeps the zone coherent and its primary NS served. */
  lemma PlanFits(h: seq<State>, s: State, ops: ExternalDns.ZoneOps, p: ExternalDns.Plan)
    requires IsRun(h) && s == h[|h| - 1] && ExternalDns.SupportedOps(ops)
    requires ExternalDns.Compute(s.meta.ttl, s.rows, ops) == ExternalDns.Resolved(p)
    ensures ExternalDns.Listed(p.deletes, s.rows)
    ensures Coherent(ExternalDns.After(s.rows, p, s.nextId))
    ensures ServesPrimary(s.meta, Rrs(ExternalDns.After(s.rows, p, s.nextId)))
  {
    RunGood(h, |h| - 1);
    ExternalDns.GoodIsSound(s.rows);
    ExternalDns.OfferMarks(s.rows, ExternalDns.Items(ops.dels, s.meta.ttl), ExternalDns.Items(ops.adds, s.meta.ttl));
    ExternalDns.AcceptedCoherent(s.rows, p, s.nextId);
    PlanServes(s, ops);
  }

  /** The same request on the resulting rows resolves to nothing. */
  lemma PlanSettles(h: seq<State>, s: State, ops: ExternalDns.ZoneOps, p: ExternalDns.Plan)
    requires IsRun(h) && s == h[|h| - 1]
    requires ExternalDns.Compute(s.meta.ttl, s.rows, ops) == ExternalDns.Resolved(p)
    ensures ExternalDns.Compute(s.meta.ttl, ExternalDns.After(s.rows, p, s.nextId), ops)
         == ExternalDns.Resolved(ExternalDns.Plan([], []))
  {
    RunGood(h, |h| - 1);
    ExternalDns.Idempotent(s.meta.ttl, s.rows, ops, s.nextId);
  }

  lemma {:induction false} ItemsSupported(ops: seq<ExternalDns.RrsetOp>, zoneTtl: int)
    requires forall op | op in ops :: ExternalDns.Supported(op.rtype)
    ensures forall x | x in ExternalDns.Items(ops, zoneTtl) :: ExternalDns.Supported(x.rtype)
  {
    if ops != [] {
      assert ops[|ops| - 1] in ops;
      ItemsSupported(ops[..|ops| - 1], zoneTtl);
    }
  }

  lemma PlanServes(s: State, ops: ExternalDns.ZoneOps)
    requires ExternalDns.Sound(s.rows) && ServesPrimary(s.meta, Rrs(s.rows)) && ExternalDns.SupportedOps(ops)
    ensures var p := ExternalDns.PlanOf(s.rows, ExternalDns.Items(ops.dels, s.meta.ttl),
                                        ExternalDns.Items(ops.adds, s.meta.ttl));
            ServesPrimary(s.meta, Rrs(ExternalDns.After(s.rows, p, s.nextId)))
  {
    var dels, adds := ExternalDns.Items(ops.dels, s.meta.ttl), ExternalDns.Items(ops.adds, s.meta.ttl);
    ItemsSupported(ops.dels, s.meta.ttl);
    var rr :| rr in Rrs(s.rows) && IsPrimaryNs(s.meta, rr);
    var r :| r in s.rows && r.rr == rr;
    ExternalDns.UnsupportedKept(s.rows, dels, adds, s.nextId, r);
    assert rr in Rrs(ExternalDns.After(s.rows, ExternalDns.PlanOf(s.rows, dels, adds), s.nextId));
  }

  /** An accepted import keeps the zone coherent and served. */
  lemma ImportFits(h: seq<State>, s: State, mode: Import.Mode, desired: seq<Rr>, m: Import.Reconciled)
    requires IsRun(h) && s == h[|h| - 1] && Import.DistinctKeys(desired)
    requires m == Import.Resolve(mode, s.meta, s.rows, desired) && m.errors == []
    ensures ExternalDns.Listed(m.dels, s.rows)
    ensures Coherent(ExternalDns.After(s.rows, Import.ToPlan(m), s.nextId))
    ensures ServesPrimary(s.meta, Rrs(ExternalDns.After(s.rows, Import.ToPlan(m), s.nextId)))
  {
    RunGood(h, |h| - 1);
    Import.DelsSpec(mode, s.meta, s.rows, desired);
    Import.ImportValid(mode, s.meta, s.rows, desired, s.nextId);
  }

  /** A file whose import would change nothing. */
  ghost predicate Quiet(mode: Import.Mode, meta: Meta, rows: seq<Row>, desired: seq<Rr>) {
    NothingToDo(mode, meta, rows, desired) == true
  }

  ghost predicate NothingToDo(mode: Import.Mode, meta: Meta, rows: seq<Row>, desired: seq<Rr>) {
    var m := Import.Resolve(mode, meta, rows, desired);
    m.dels == [] && m.adds == [] && m.errors == []
  }

  lemma ImportSettles(h: seq<State>, s: State, mode: Import.Mode, desired: seq<Rr>, m: Import.Reconciled)
    requires IsRun(h) && s == h[|h| - 1] && Import.DistinctKeys(desired)
    requires m == Import.Resolve(mode, s.meta, s.rows, desired) && m.errors == []
    ensures Quiet(mode, s.meta, ExternalDns.After(s.rows, Import.ToPlan(m), s.nextId), desired)
  {
    RunGood(h, |h| - 1);
    Import.ImportIdempotent(mode, s.meta, s.rows, desired, s.nextId);
  }

  /** The row lists holding the records of `goal` as transfers show them, with the one
      reservation: to the letter exactly when no row before spelled one of them differently. */
  ghost function Restorations(before: seq<Row>, goal: set<Rr>): iset<seq<Row>> {
    iset out: seq<Row> | WireSet(Rrs(out)) == WireSet(goal) && (Rrs(out) == goal <==> !Rollback.Respelled(before, goal))
  }

  /** A rollback to an earlier state of the run is never refused. */
  lemma RollbackFits(h: seq<State>, i: nat, dels: seq<Row>, adds: seq<Rr>)
    requires IsRun(h) && i < |h|
    requires Rollback.Difference(h[i].meta, h[|h| - 1].rows, Rrs(h[i].rows), dels, adds)
    ensures var s := h[|h| - 1];
            var out := Without(s.rows, Ids(dels)) + Numbered(adds, s.nextId);
            && AddErrors(Without(s.rows, Ids(dels)), adds) == []
            && Coherent(out) && ServesPrimary(h[i].meta, Rrs(out))
  {
    RunGood(h, |h| - 1);
    RunGood(h, i);
    Rollback.NeverRefused(h[i].meta, h[|h| - 1].rows, h[i].rows, dels, adds, h[|h| - 1].nextId);
  }

  lemma RollbackRestores(h: seq<State>, s: State, i: nat, m: Meta, dels: seq<Row>, adds: seq<Rr>)
    requires IsRun(h) && s == h[|h| - 1] && i < |h| && m == h[i].meta
    requires Rollback.Difference(m, s.rows, Rrs(h[i].rows), dels, adds)
    ensures Without(s.rows, Ids(dels)) + Numbered(adds, s.nextId) in Restorations(s.rows, Rrs(h[i].rows))
    ensures !Rollback.Respelled(Without(s.rows, Ids(dels)) + Numbered(adds, s.nextId), Rrs(s.rows))
  {
    RunGood(h, |h| - 1);
    RunGood(h, i);
    History.RunKeys(h, i);
    Rollback.LeavesTarget(m, s.rows, Rrs(h[i].rows), dels, adds, s.nextId);
    Rollback.LeavesRowsExactly(m, s.rows, Rrs(h[i].rows), dels, adds, s.nextId);
    Rollback.NothingRespelled(m, s.rows, Rrs(h[i].rows), dels, adds, s.nextId);
  }

  lemma OnlyRow(h: seq<State>, s: State, row: Row)
    requires IsRun(h) && s == h[|h| - 1] && row in s.rows
    ensures forall x | x in s.rows && x.id == row.id :: x == row
  {
    RunGood(h, |h| - 1);
    ExternalDns.GoodIsSound(s.rows);
  }

  /** What updating a row is answered: the checks in order. */
  function UpdateReply(s: State, row: Row, rr: Rr): Option<ServiceError> {
    var refused := ValidateAdd(s.rows, rr, Some(row.id));
    if refused.Some? then Some(AddRefused(refused.value))
    else if IsPrimaryNs(s.meta, row.rr) && !IsPrimaryNs(s.meta, rr) then Some(InvalidInput)
    else if s.serial >= MAX_SERIAL then Some(SerialExhausted)
    else None
  }

  /** The update check, from the rows at the new owner name alone. */
  method CheckUpdate(rows: seq<Row>, rr: Rr, id: int) returns (r: Option<AddError>)
    ensures r == None <==> Admits(rows, rr, Some(id))
    ensures r == ValidateAdd(rows, rr, Some(id))
    ensures r == ValidateAdd(SameOwner(rows, rr.owner), rr, Some(id))
  {
    r := ValidateAdd(SameOwner(rows, rr.owner), rr, Some(id));
    ValidateAddExact(SameOwner(rows, rr.owner), rr, Some(id));
    ValidateAddExact(rows, rr, Some(id));
    ValidateNear(SameOwner(rows, rr.owner), rows, rr, Some(id));
  }

  /** The apex NS row a metadata update must add, looked for among the apex rows. */
  method MissingPrimary(s: State, m: Meta) returns (adds: seq<Rr>)
    ensures adds == if ServesPrimary(m, Rrs(s.rows)) then [] else [NewPrimary(s, m)]
  {
    var apex := SameOwner(s.rows, []);
    if exists e | e in apex :: IsPrimaryNs(m, e.rr) {
      assert ServesPrimary(m, Rrs(s.rows)) by {
        var e :| e in apex && IsPrimaryNs(m, e.rr);
        assert e.rr in Rrs(s.rows);
      }
      adds := [];
    } else {
      assert forall e | e in s.rows :: IsPrimaryNs(m, e.rr) ==> e in apex;
      adds := [PrimaryNsRr(m, Rollback.ApexNsTtl(m, RrsOf(apex)))];
    }
  }

  /** The added NS row has the TTL of every NS row of the zone. */
  lemma ApexTtl(h: seq<State>, s: State, m: Meta)
    requires IsRun(h) && s == h[|h| - 1]
    ensures forall r | r in s.rows && r.rr.rtype == NS :: r.rr.ttl == NewPrimary(s, m).ttl
    ensures NewPrimary(s, m) == PrimaryNsRr(m, NewPrimary(s, m).ttl)
    ensures Numbered([NewPrimary(s, m)], s.nextId) == [Row(s.nextId, NewPrimary(s, m))]
  {
    RunGood(h, |h| - 1);
    SameOwnerCoherent(s.rows, []);
    Rollback.ApexNsTtlJoins(m, SameOwner(s.rows, []));
    assert Consistent(s.rows);
  }

  /** What the resolved request leaves, whether or not it leaves anything to do. */
  lemma PlanMeans(h: seq<State>, s: State, ops: ExternalDns.ZoneOps, p: ExternalDns.Plan)
    requires IsRun(h) && s == h[|h| - 1]
    requires ExternalDns.Compute(s.meta.ttl, s.rows, ops) == ExternalDns.Resolved(p)
    ensures ExternalDns.Applies(s.rows, ExternalDns.Items(ops.dels, s.meta.ttl),
                                ExternalDns.Items(ops.adds, s.meta.ttl), ExternalDns.After(s.rows, p, s.nextId))
    ensures p == ExternalDns.Plan([], []) ==> ExternalDns.After(s.rows, p, s.nextId) == s.rows
  {
    RunGood(h, |h| - 1);
    ExternalDns.PlanApplies(s.rows, ExternalDns.Items(ops.dels, s.meta.ttl),
                            ExternalDns.Items(ops.adds, s.meta.ttl), s.nextId);
    Import.WithoutNone(s.rows, Ids([]));
  }

  /** Load the rows at the request's owner names and resolve the request against them. */
  method ResolveOps(ghost h: seq<State>, s: State, ops: ExternalDns.ZoneOps) returns (c: ExternalDns.Outcome)
    requires IsRun(h) && s == h[|h| - 1] && ExternalDns.SupportedOps(ops)
    ensures c == ExternalDns.Compute(s.meta.ttl, s.rows, ops)
  {
    c := ExternalDns.ComputeChangeSet(s.meta.ttl, OfOwners(s.rows, ExternalDns.OpOwners(ops)), ops);
    ExternalDns.RestrictedCompute(s.meta.ttl, s.rows, ops);
  }

  lemma PlanStep(h: seq<State>, s: State, ops: ExternalDns.ZoneOps, p: ExternalDns.Plan, t: State)
    requires IsRun(h) && s == h[|h| - 1] && s.serial < MAX_SERIAL && ExternalDns.SupportedOps(ops)
    requires ExternalDns.Compute(s.meta.ttl, s.rows, ops) == ExternalDns.Resolved(p)
    requires t == Finish(s, SwapTx(s, [], p.deletes, p.creates), s.meta)
    ensures h + [t] in CleanRuns()
  {
    PlanFits(h, s, ops, p);
    KeepStep(h, s, p.deletes, p.creates);
  }

  /** Deletes and adds that leave the metadata alone. */
  lemma KeepStep(h: seq<State>, s: State, dels: seq<Row>, adds: seq<Rr>)
    requires IsRun(h) && s == h[|h| - 1] && s.serial < MAX_SERIAL && ExternalDns.Listed(dels, s.rows)
    requires Coherent(Without(s.rows, Ids(dels)) + Numbered(adds, s.nextId))
    requires ServesPrimary(s.meta, Rrs(Without(s.rows, Ids(dels)) + Numbered(adds, s.nextId)))
    ensures h + [Finish(s, SwapTx(s, [], dels, adds), s.meta)] in CleanRuns()
  {
    RunGood(h, |h| - 1);
    SwapStep(h, s, [], dels, adds, s.meta);
  }

  /** What an import reports; `Import.Summary` holds the counts. */
  datatype ImportReply =
    | Reported(applied: bool, summary: Import.Summary, skipped: nat, fileErrors: nat, errors: seq<AddError>)
    | ImportExhausted

  /** Append loads the rows at the file's owner names, the other modes every row. */
  method ResolveFile(s: State, mode: Import.Mode, desired: seq<Rr>) returns (m: Import.Reconciled)
    ensures m == Import.Resolve(mode, s.meta, s.rows, desired)
  {
    var existing := if mode == Import.Append then OfOwners(s.rows, set d | d in desired :: d.owner) else s.rows;
    m := Import.ResolveImport(mode, s.meta, existing, desired);
    if mode == Import.Append { Import.RestrictedAppend(s.meta, s.rows, desired); }
  }

  lemma FileMeaning(h: seq<State>, s: State, mode: Import.Mode, parsed: seq<Rr>, m: Import.Reconciled)
    requires IsRun(h) && s == h[|h| - 1] && Import.Dedup(parsed).conflicts == 0
    requires m == Import.Resolve(mode, s.meta, s.rows, Import.Dedup(parsed).desired)
    ensures Import.Imports(mode, s.meta, s.rows, parsed, ExternalDns.After(s.rows, Import.ToPlan(m), s.nextId))
    ensures Import.Tallies(m.summary, |s.rows|, |ExternalDns.After(s.rows, Import.ToPlan(m), s.nextId)|)
  {
    NowGood(h, s);
    Import.FileMeans(mode, s.meta, s.rows, parsed, m, s.nextId);
  }

  lemma QuietFile(s: State, mode: Import.Mode, desired: seq<Rr>, m: Import.Reconciled)
    requires m == Import.Resolve(mode, s.meta, s.rows, desired) && m.errors == [] && m.dels == [] && m.adds == []
    ensures Quiet(mode, s.meta, s.rows, desired)
    ensures ExternalDns.After(s.rows, Import.ToPlan(m), s.nextId) == s.rows
  {
    Import.NoChange(s.rows, m, s.nextId);
  }

  lemma ImportStep(h: seq<State>, s: State, mode: Import.Mode, desired: seq<Rr>, m: Import.Reconciled)
    requires IsRun(h) && s == h[|h| - 1] && s.serial < MAX_SERIAL && Import.DistinctKeys(desired)
    requires m == Import.Resolve(mode, s.meta, s.rows, desired) && m.errors == []
    ensures h + [Finish(s, SwapTx(s, [], m.dels, m.adds), s.meta)] in CleanRuns()
  {
    ImportFits(h, s, mode, desired, m);
    KeepStep(h, s, m.dels, m.adds);
  }

  /** A serial names one state of the run, at the index counted from the first serial. */
  lemma SoleSerial(h: seq<State>, at: int)
    requires IsRun(h)
    ensures (exists t | t in h :: t.serial == at) <==> h[0].serial <= at < h[0].serial + |h|
    ensures h[0].serial <= at < h[0].serial + |h| ==>
              h[at - h[0].serial].serial == at && forall t | t in h && t.serial == at :: t == h[at - h[0].serial]
  {
    forall i | 0 <= i < |h| ensures h[i].serial == h[0].serial + i { RunSerial(h, i); }
    if h[0].serial <= at < h[0].serial + |h| { assert h[at - h[0].serial] in h; }
  }

  /** `restored_zone_from_snapshot`: the snapshot of a committed serial always decodes. */
  method RestoreMeta(ghost h: seq<State>, s: State, target: int) returns (m: Meta)
    requires IsRun(h) && s == h[|h| - 1] && target in s.snaps
    ensures 0 <= target - h[0].serial < |h| && m == h[target - h[0].serial].meta
  {
    RunSnapshots(h, |h| - 1, target);
    RunGood(h, target - h[0].serial);
    RestoredSnapshot(h[target - h[0].serial].meta);
    m := Restored(s.snaps[target]).value;
  }

  lemma ServedBetween(meta: Meta, kept: seq<Row>, adds: seq<Rr>, next: int)
    requires ServesPrimary(meta, Rrs(kept + Numbered(adds, next)))
    ensures ServesPrimary(meta, Rrs(kept) + RrSet(adds))
  {
    NumberedRrs(adds, next);
    assert Rrs(kept + Numbered(adds, next)) == Rrs(kept) + Rrs(Numbered(adds, next));
  }

  function SoaNotes(before: Meta, after: Meta, serial: int): seq<LogRow> {
    if after != before then SoaRows(before, after, serial) else []
  }

  lemma RollbackStep(h: seq<State>, s: State, i: nat, m: Meta, dels: seq<Row>, adds: seq<Rr>)
    requires IsRun(h) && s == h[|h| - 1] && s.serial < MAX_SERIAL && i < |h| && m == h[i].meta
    requires Rollback.Difference(m, s.rows, Rrs(h[i].rows), dels, adds)
    ensures h + [Finish(s, SwapTx(s, SoaNotes(s.meta, m, s.serial + 1), dels, adds), m)] in CleanRuns()
  {
    assert ExternalDns.Listed(dels, s.rows);
    RollbackFits(h, i, dels, adds);
    RunGood(h, i);
    SwapStep(h, s, SoaNotes(s.meta, m, s.serial + 1), dels, adds, m);
  }

  /** The rows a rollback deletes and adds. The comparison already leaves a primary NS, and no
      add is refused. */
  method CompareWith(ghost h: seq<State>, s: State, target: int, m: Meta) returns (dels: seq<Row>, adds: seq<Rr>)
    requires IsRun(h) && s == h[|h| - 1] && 0 <= target - h[0].serial < |h| - 1 && m == h[target - h[0].serial].meta
    ensures Rollback.Difference(m, s.rows, Rrs(h[target - h[0].serial].rows), dels, adds)
  {
    ghost var i := target - h[0].serial;
    RunSerial(h, |h| - 1);
    RunGood(h, |h| - 1);
    ExternalDns.GoodIsSound(s.rows);
    History.RunKeys(h, i);
    var records := History.RecordsAt(h, s, target);
    dels, adds := Rollback.Compare(m, s.rows, records, Rrs(h[i].rows));
    RollbackFits(h, i, dels, adds);
    ServedBetween(m, Without(s.rows, Ids(dels)), adds, s.nextId);
    adds := Rollback.KeepPrimary(m, Without(s.rows, Ids(dels)), adds);
    var errors := CheckAdds(Without(s.rows, Ids(dels)), adds);
    assert errors == [];
  }

  /** The transaction of a rollback. */
  method RollbackTx(ghost h: seq<State>, s: State, target: int, m: Meta) returns (tx: Tx)
    requires IsRun(h) && s == h[|h| - 1] && s.serial < MAX_SERIAL
    requires 0 <= target - h[0].serial < |h| - 1 && m == h[target - h[0].serial].meta
    ensures h + [Finish(s, tx, m)] in CleanRuns()
    ensures tx.rows in Restorations(s.rows, Rrs(h[target - h[0].serial].rows))
    ensures !Rollback.Respelled(tx.rows, Rrs(s.rows))
  {
    var dels, adds := CompareWith(h, s, target, m);
    RollbackStep(h, s, target - h[0].serial, m, dels, adds);
    RollbackRestores(h, s, target - h[0].serial, m, dels, adds);
    tx := SwapTx(s, SoaNotes(s.meta, m, s.serial + 1), dels, adds);
  }

  lemma HistoryKeys(h: seq<State>, s: State)
    requires IsRun(h) && s in h
    ensures KeyUnique(Rrs(s.rows))
  {
    var i :| 0 <= i < |h| && h[i] == s;
    History.RunKeys(h, i);
  }

  class ZoneStore {
    var meta: Meta
    var serial: int
    var rows: seq<Row>
    var nextId: int
    var log: seq<LogRow>
    var snaps: map<int, Snapshot>

    /** Every committed state, oldest first. */
    ghost var history: seq<State>

    function Now(): State
      reads this
    { State(meta, serial, rows, nextId, log, snaps) }

    ghost predicate Valid()
      reads this
    { IsRun(history) && history[|history| - 1] == Now() }

    /** One commit since `before`, whose log rows any secondary can replay. */
    ghost predicate CommittedAfter(before: seq<State>)
      reads this
    { history == before + [Now()] && history in CleanRuns() }

    constructor (m: Meta, first: int)
      requires MetaOk(m) && 1 <= first <= MAX_INITIAL_SERIAL
      ensures Valid() && history == [Now()]
      ensures Now() == State(m, first, [Row(1, PrimaryNsRr(m, m.ttl))], 2, [], map[first := SnapshotOf(m)])
    {
      meta, serial, rows, nextId := m, first, [Row(1, PrimaryNsRr(m, m.ttl))], 2;
      log, snaps := [], map[first := SnapshotOf(m)];
      history := [State(m, first, [Row(1, PrimaryNsRr(m, m.ttl))], 2, [], map[first := SnapshotOf(m)])];
      CreatedRun(m, first);
    }

    /** `ZoneService::create`: the requested initial serial, or 1. */
    static method Create(m: Meta, initial: Option<int>) returns (z: ZoneStore?, e: Option<ServiceError>)
      ensures e == if z == null then Some(InvalidZone) else None
      ensures z != null <==> MetaOk(m) && (initial.Some? ==> 1 <= initial.value <= MAX_INITIAL_SERIAL)
      ensures z != null ==>
                && fresh(z) && z.Valid() && z.history == [z.Now()]
                && z.meta == m && z.serial == if initial.Some? then initial.value else 1
    {
      if !MetaOk(m) { return null, Some(InvalidZone); }
      if initial.Some? && !(1 <= initial.value <= MAX_INITIAL_SERIAL) { return null, Some(InvalidZone); }
      z := new ZoneStore(m, if initial.Some? then initial.value else 1);
      e := None;
    }

    /** Write the staged rows and log rows, advance the serial once and save its snapshot. */
    method CommitTx(tx: Tx, m: Meta)
      requires Valid() && IsRun(history + [Finish(Now(), tx, m)])
      modifies this
      ensures Valid() && Now() == old(Finish(Now(), tx, m)) && history == old(history + [Finish(Now(), tx, m)])
    {
      history := history + [Finish(Now(), tx, m)];
      serial := serial + 1;
      meta, rows, nextId, log := m, tx.rows, tx.nextId, log + tx.logged;
      snaps := snaps[serial := SnapshotOf(m)];
    }

    /** The checks of `create_bulk`, which a dry run makes too. */
    method CheckBulk(items: seq<Item>) returns (r: Option<ServiceError>)
      requires Valid()
      ensures r == BulkReply(Now(), items)
      ensures r == None <==> && items != [] && serial < MAX_SERIAL
                             && Coherent(rows + Numbered(ItemRrs(items, meta.ttl), nextId))
    {
      if items == [] { return Some(InvalidInput); }
      RunSerial(history, |history| - 1);
      if NextSerial(serial).None? { return Some(SerialExhausted); }
      var s := Now();
      var e := CheckItems(s, items);
      BulkVerdict(history, s, ItemRrs(items, s.meta.ttl));
      r := if e == None then None else Some(AddRefused(e.value));
    }

    /** `create_bulk` (a single create is a batch of one): all of it or none. */
    method CreateBulk(items: seq<Item>) returns (r: Option<ServiceError>)
      requires Valid()
      modifies this
      ensures Valid()
      ensures r == BulkReply(old(Now()), items)
      ensures r == None <==> && items != [] && old(serial) < MAX_SERIAL
                             && Coherent(old(rows) + Numbered(ItemRrs(items, old(meta.ttl)), old(nextId)))
      ensures r == None ==> && CommittedAfter(old(history)) && meta == old(meta)
                            && rows == old(rows) + Numbered(ItemRrs(items, old(meta.ttl)), old(nextId))
      ensures r != None ==> unchanged(this)
    {
      r := CheckBulk(items);
      if r == None {
        var adds, s := ItemRrs(items, meta.ttl), Now();
        BulkStep(history, s, adds);
        CommitTx(Insert(Begin(s), s.serial + 1, adds), s.meta);
      }
    }

    /** `create_bulk` as a dry run: what it would answer and the difference it would make. */
    method PreviewBulk(items: seq<Item>) returns (r: Option<ServiceError>, d: Diff.RecordDiff)
      requires Valid()
      ensures r == BulkReply(Now(), items)
      ensures r == None ==>
                Diff.Describes(rows, rows + Numbered(ItemRrs(items, meta.ttl), nextId), d)
      ensures r != None ==> d == Diff.EMPTY_DIFF
    {
      r := CheckBulk(items);
      if r == None {
        d := Preview.BulkDiff(rows, items, meta.ttl, nextId);
      } else {
        d := Diff.EMPTY_DIFF;
      }
    }

    /** `delete_by_id`. */
    method DeleteById(id: int) returns (r: Option<ServiceError>)
      requires Valid()
      modifies this
      ensures Valid()
      ensures r == Some(NotFound) <==> !HasId(old(rows), id)
      ensures r == Some(SerialExhausted) <==> HasId(old(rows), id) && old(serial) == MAX_SERIAL
      ensures forall row | row in old(rows) && row.id == id && old(serial) < MAX_SERIAL ::
                r == if Protected(old(meta), row.rr) then Some(InvalidInput) else None
      ensures r == None ==> && CommittedAfter(old(history)) && meta == old(meta)
                            && forall x :: x in rows <==> x in old(rows) && x.id != id
      ensures r != None ==> unchanged(this)
    {
      if !HasId(rows, id) { return Some(NotFound); }
      RunSerial(history, |history| - 1);
      var s := Now();
      var row :| row in rows && row.id == id;
      OnlyRow(history, s, row);
      if NextSerial(serial).None? { return Some(SerialExhausted); }
      if Protected(meta, row.rr) { return Some(InvalidInput); }
      DeleteStep(history, s, row);
      CommitTx(Delete(Begin(s), s.serial + 1, [row]), s.meta);
      return None;
    }

    /** `update_locked` on a record, with the requested record already resolved. */
    method UpdateRecord(id: int, rr: Rr) returns (r: Option<ServiceError>)
      requires Valid()
      modifies this
      ensures Valid()
      ensures r == Some(NotFound) <==> !HasId(old(rows), id)
      ensures forall row | row in old(rows) && row.id == id :: r == UpdateReply(old(Now()), row, rr)
      ensures forall row | row in old(rows) && row.id == id ::
                r == None <==> && Admits(old(rows), rr, Some(id)) && old(serial) < MAX_SERIAL
                               && (IsPrimaryNs(old(meta), row.rr) ==> IsPrimaryNs(old(meta), rr))
      ensures r == None ==> && CommittedAfter(old(history)) && meta == old(meta)
                            && exists i | 0 <= i < |old(rows)| ::
                                 old(rows)[i].id == id && rows == old(rows)[i := Row(id, rr)]
      ensures r != None ==> unchanged(this)
    {
      if !HasId(rows, id) { return Some(NotFound); }
      RunSerial(history, |history| - 1);
      var s := Now();
      var i :| 0 <= i < |rows| && rows[i].id == id;
      OnlyRow(history, s, s.rows[i]);
      var refused := CheckUpdate(s.rows, rr, id);
      if refused.Some? { return Some(AddRefused(refused.value)); }
      if IsPrimaryNs(meta, rows[i].rr) && !IsPrimaryNs(meta, rr) { return Some(InvalidInput); }
      if NextSerial(serial).None? { return Some(SerialExhausted); }
      UpdateStep(history, s, i, rr);
      CommitTx(Replace(Begin(s), s.serial + 1, i, rr), s.meta);
      return None;
    }

    /** `update_locked` on the zone, with the request already merged. */
    method UpdateZone(m: Meta) returns (r: Option<ServiceError>)
      requires Valid()
      modifies this
      ensures Valid()
      ensures r == if !MetaOk(m) then Some(InvalidZone)
                   else if old(serial) == MAX_SERIAL then Some(SerialExhausted) else None
      ensures r == None ==> CommittedAfter(old(history)) && meta == m
      ensures r == None ==>
                if ServesPrimary(m, Rrs(old(rows))) then rows == old(rows)
                else
                  && |rows| == |old(rows)| + 1
                  && rows == old(rows) + [Row(old(nextId), PrimaryNsRr(m, rows[|rows| - 1].rr.ttl))]
                  && forall r | r in old(rows) && r.rr.rtype == NS :: r.rr.ttl == rows[|rows| - 1].rr.ttl
      ensures r != None ==> unchanged(this)
    {
      if !MetaOk(m) { return Some(InvalidZone); }
      RunSerial(history, |history| - 1);
      if NextSerial(serial).None? { return Some(SerialExhausted); }
      var s := Now();
      var adds := MissingPrimary(s, m);
      RetitleStep(history, s, m, adds);
      ApexTtl(history, s, m);
      CommitTx(Note(Insert(Begin(s), s.serial + 1, adds), SoaRows(s.meta, m, s.serial + 1)), m);
      return None;
    }

    /** `force_increment_serial_by_name`: a new serial with nothing logged under it. */
    method ForceIncrement() returns (r: Option<ServiceError>)
      requires Valid()
      modifies this
      ensures Valid()
      ensures r == if old(serial) == MAX_SERIAL then Some(SerialExhausted) else None
      ensures r == None ==> && CommittedAfter(old(history))
                            && meta == old(meta) && rows == old(rows) && log == old(log)
      ensures r != None ==> unchanged(this)
    {
      RunSerial(history, |history| - 1);
      if NextSerial(serial).None? { return Some(SerialExhausted); }
      var s := Now();
      ForceStep(history, s);
      CommitTx(Begin(s), s.meta);
      return None;
    }

    /** Delete, then insert, as one commit. */
    method CommitPlan(ops: ExternalDns.ZoneOps, p: ExternalDns.Plan)
      requires Valid() && ExternalDns.SupportedOps(ops) && serial < MAX_SERIAL
      requires ExternalDns.Compute(meta.ttl, rows, ops) == ExternalDns.Resolved(p)
      modifies this
      ensures Valid() && CommittedAfter(old(history)) && meta == old(meta)
      ensures rows == ExternalDns.After(old(rows), p, old(nextId))
      ensures ExternalDns.Compute(meta.ttl, rows, ops) == ExternalDns.Resolved(ExternalDns.Plan([], []))
    {
      var s := Now();
      PlanStep(history, s, ops, p, Finish(s, SwapTx(s, [], p.deletes, p.creates), s.meta));
      PlanSettles(history, s, ops, p);
      CommitTx(SwapTx(s, [], p.deletes, p.creates), s.meta);
    }

    /** The part of `apply_changes` for one zone: nothing at all, or one commit after which
        the same request resolves to nothing. */
    method ApplyExternalDns(ops: ExternalDns.ZoneOps) returns (r: Option<ServiceError>)
      requires Valid() && ExternalDns.SupportedOps(ops)
      modifies this
      ensures Valid() && meta == old(meta)
      ensures match ExternalDns.Compute(old(meta.ttl), old(rows), ops)
              case Rejected(e) => r == Some(AddRefused(e)) && unchanged(this)
              case Resolved(p) =>
                if p == ExternalDns.Plan([], []) then r == None && unchanged(this)
                else if old(serial) == MAX_SERIAL then r == Some(SerialExhausted) && unchanged(this)
                else r == None && CommittedAfter(old(history)) && rows == ExternalDns.After(old(rows), p, old(nextId))
      ensures r == None ==> ExternalDns.Compute(meta.ttl, rows, ops) == ExternalDns.Resolved(ExternalDns.Plan([], []))
      ensures r == None ==> ExternalDns.Applies(old(rows), ExternalDns.Items(ops.dels, old(meta.ttl)),
                                                ExternalDns.Items(ops.adds, old(meta.ttl)), rows)
    {
      RunSerial(history, |history| - 1);
      var s := Now();
      var c := ResolveOps(history, s, ops);
      if c.Rejected? { return Some(AddRefused(c.error)); }
      PlanMeans(history, s, ops, c.plan);
      if c.plan == ExternalDns.Plan([], []) { return None; }
      if NextSerial(serial).None? { return Some(SerialExhausted); }
      CommitPlan(ops, c.plan);
      return None;
    }

    /** Delete, then insert what the import resolved to. */
    method CommitImport(mode: Import.Mode, desired: seq<Rr>, m: Import.Reconciled)
      requires Valid() && serial < MAX_SERIAL && Import.DistinctKeys(desired)
      requires m == Import.Resolve(mode, meta, rows, desired) && m.errors == []
      modifies this
      ensures Valid() && CommittedAfter(old(history)) && meta == old(meta)
      ensures rows == ExternalDns.After(old(rows), Import.ToPlan(m), old(nextId)) && Quiet(mode, meta, rows, desired)
    {
      var s := Now();
      ImportStep(history, s, mode, desired, m);
      ImportSettles(history, s, mode, desired, m);
      CommitTx(SwapTx(s, [], m.dels, m.adds), s.meta);
    }

    /** Apply an accepted file, unless it changes something and no serial is left. */
    method ApplyFile(mode: Import.Mode, parsed: seq<Rr>, desired: seq<Rr>, m: Import.Reconciled) returns (ok: bool)
      requires Valid() && Import.Dedup(parsed).conflicts == 0 && desired == Import.Dedup(parsed).desired
      requires m == Import.Resolve(mode, meta, rows, desired) && m.errors == []
      modifies this
      ensures Valid() && meta == old(meta)
      ensures ok <==> (m.dels == [] && m.adds == []) || old(serial) < MAX_SERIAL
      ensures if ok && (m.dels != [] || m.adds != []) then CommittedAfter(old(history)) else unchanged(this)
      ensures ok ==> && rows == ExternalDns.After(old(rows), Import.ToPlan(m), old(nextId))
                     && Quiet(mode, meta, rows, desired)
                     && Import.Imports(mode, meta, old(rows), parsed, rows)
                     && Import.Tallies(m.summary, |old(rows)|, |rows|)
    {
      var s := Now();
      Import.DedupExact(parsed);
      FileMeaning(history, s, mode, parsed, m);
      if m.dels == [] && m.adds == [] {
        QuietFile(s, mode, desired, m);
        return true;
      }
      RunSerial(history, |history| - 1);
      if NextSerial(serial).None? { return false; }
      CommitImport(mode, desired, m);
      ok := true;
    }

    /** `import_zone_file`, with the records that parsed and the number that did not. */
    method ImportFile(mode: Import.Mode, parsed: seq<Rr>, badLines: nat) returns (out: ImportReply)
      requires Valid()
      modifies this
      ensures Valid() && meta == old(meta)
      ensures var d := Import.Dedup(parsed);
              var m := Import.Resolve(mode, old(meta), old(rows), d.desired);
              var accepted, changes := badLines + d.conflicts == 0 && m.errors == [], m.dels != [] || m.adds != [];
              if accepted && changes && old(serial) == MAX_SERIAL then out == ImportExhausted && unchanged(this)
              else
                && out == Reported(accepted, m.summary, d.skipped, badLines + d.conflicts, m.errors)
                && (if accepted && changes then CommittedAfter(old(history)) else unchanged(this))
                && (accepted ==> rows == ExternalDns.After(old(rows), Import.ToPlan(m), old(nextId)))
                && (accepted ==> Quiet(mode, meta, rows, d.desired))
                && (accepted ==> Import.Imports(mode, meta, old(rows), parsed, rows))
                && (accepted ==> Import.Tallies(m.summary, |old(rows)|, |rows|))
    {
      RunSerial(history, |history| - 1);
      var d := Import.DedupFile(parsed);
      var m := ResolveFile(Now(), mode, d.desired);
      var fileErrors := badLines + d.conflicts;
      out := Reported(fileErrors == 0 && m.errors == [], m.summary, d.skipped, fileErrors, m.errors);
      if out.applied {
        var ok := ApplyFile(mode, parsed, d.desired, m);
        if !ok { out := ImportExhausted; }
      }
    }

    /** `import_zone_file` as a dry run: what it would report and the difference it would make. */
    method PreviewImport(mode: Import.Mode, parsed: seq<Rr>, badLines: nat)
      returns (out: ImportReply, d: Diff.RecordDiff)
      requires Valid()
      ensures var f := Import.Dedup(parsed);
              var m := Import.Resolve(mode, meta, rows, f.desired);
              && out == Reported(false, m.summary, f.skipped, badLines + f.conflicts, m.errors)
              && if badLines + f.conflicts == 0 && m.errors == []
                 then Diff.Describes(rows, ExternalDns.After(rows, Import.ToPlan(m), nextId), d)
                 else d == Diff.EMPTY_DIFF
    {
      var f := Import.DedupFile(parsed);
      var m := ResolveFile(Now(), mode, f.desired);
      out := Reported(false, m.summary, f.skipped, badLines + f.conflicts, m.errors);
      if badLines + f.conflicts == 0 && m.errors == [] {
        d := Preview.FileDiff(mode, meta, rows, f.desired, m, nextId);
      } else {
        d := Diff.EMPTY_DIFF;
      }
    }

    method CommitMessage(ops: seq<DynamicUpdate.UpdateOp>, tx: Tx)
      requires Valid() && serial < MAX_SERIAL
      requires DynamicUpdate.Message(Now(), ops) == DynamicUpdate.Staged(tx)
      modifies this
      ensures Valid() && history == old(history) + [Now()] && meta == old(meta)
      ensures rows == tx.rows && log == old(log) + tx.logged
      ensures history in CleanRuns() <==> !UpdateScan.DeletesOwn(old(rows), ops)
      ensures history in SettledRuns() <==> !UpdateScan.LosesOwn(old(rows), ops)
      ensures UpdateScan.Leaves(old(rows), ops, Rrs(rows))
    {
      var s := Now();
      MessageStep(history, s, ops, tx);
      CommitTx(tx, s.meta);
    }

    /** `DynamicUpdateService::apply` once the key and the prerequisites are accepted. */
    method ApplyUpdate(ops: seq<DynamicUpdate.UpdateOp>) returns (r: Option<ServiceError>)
      requires Valid()
      modifies this
      ensures Valid() && meta == old(meta)
      ensures old(serial) == MAX_SERIAL ==> r == Some(SerialExhausted)
      ensures old(serial) < MAX_SERIAL ==>
                match DynamicUpdate.Message(old(Now()), ops)
                case Aborted(e) => r == Some(UpdateRefused(e))
                case Staged(tx) =>
                  && r == None
                  && if tx.logged == [] then unchanged(this)
                     else
                       && history == old(history) + [Now()] && rows == tx.rows && log == old(log) + tx.logged
                       && (history in CleanRuns() <==> !UpdateScan.DeletesOwn(old(rows), ops))
                       && (history in SettledRuns() <==> !UpdateScan.LosesOwn(old(rows), ops))
      ensures r == None ==> UpdateScan.Leaves(old(rows), ops, Rrs(rows))
      ensures r != None ==> unchanged(this)
    {
      RunSerial(history, |history| - 1);
      if NextSerial(serial).None? { return Some(SerialExhausted); }
      var s := Now();
      var staged := DynamicUpdate.ApplyMessage(s, ops);
      if staged.Aborted? { return Some(UpdateRefused(staged.error)); }
      if staged.tx.logged == [] {
        QuietMessage(history, s, ops, staged.tx);
        return None;
      }
      CommitMessage(ops, staged.tx);
      return None;
    }

    /** `rollback`: the records and metadata of an earlier serial, committed as a new one. It is
        refused only for a serial that is not in the past, was never committed, or when no serial
        is left. Records come back as transfers show them; they come back to the letter exactly
        when no current row spells one of them differently. It respells nothing itself. */
    method RollBack(target: int) returns (r: Option<ServiceError>)
      requires Valid()
      modifies this
      ensures Valid()
      ensures r == if target < 1 || target >= old(serial) then Some(InvalidInput)
                   else if target < old(history)[0].serial then Some(SnapshotNotFound)
                   else if old(serial) == MAX_SERIAL then Some(SerialExhausted)
                   else None
      ensures r == None ==> CommittedAfter(old(history))
      ensures r == None ==> forall t | t in old(history) && t.serial == target ::
                meta == t.meta && rows in Restorations(old(rows), Rrs(t.rows))
      ensures r == None ==> !Rollback.Respelled(rows, Rrs(old(rows)))
      ensures r != None ==> unchanged(this)
    {
      if target < 1 || target >= serial { return Some(InvalidInput); }
      RunSerial(history, |history| - 1);
      RunSnapshots(history, |history| - 1, target);
      if target !in snaps { return Some(SnapshotNotFound); }
      if NextSerial(serial).None? { return Some(SerialExhausted); }
      var s := Now();
      var m := RestoreMeta(history, s, target);
      var tx := RollbackTx(history, s, target, m);
      SoleSerial(history, target);
      CommitTx(tx, m);
      return None;
    }

    /** A rollback is undone, to the letter, by rolling back to the serial before it. */
    method RollBackAndForth(target: int) returns (r: Option<ServiceError>)
      requires Valid()
      modifies this
      ensures Valid()
      ensures r == None <==> old(history)[0].serial <= target < old(serial) && old(serial) + 2 <= MAX_SERIAL
      ensures r == None ==> serial == old(serial) + 2 && meta == old(meta) && Rrs(rows) == Rrs(old(rows))
    {
      RunSerial(history, |history| - 1);
      var s := Now();
      r := RollBack(target);
      if r.Some? { return; }
      RunSerial(history, |history| - 1);
      assert s in history;
      r := RollBack(s.serial);
      RunSerial(history, |history| - 1);
    }

    /** `records_at_serial`: every record committed under the serial, once. */
    method RecordsAt(at: int) returns (out: Option<seq<Rr>>)
      requires Valid()
      ensures out.Some? <==> exists t | t in history :: t.serial == at
      ensures out.Some? ==> forall t | t in history && t.serial == at :: History.Lists(out.value, Rrs(t.rows))
    {
      RunSerial(history, |history| - 1);
      RunSnapshots(history, |history| - 1, at);
      SoleSerial(history, at);
      if at !in snaps { return None; }
      var s := Now();
      var list := History.RecordsAt(history, s, at);
      out := Some(list);
    }

    /** An incremental transfer request, with zone row, log and snapshots read at once. */
    method AnswerIxfr(client: Option<Ixfr.u32>) returns (out: Ixfr.Outcome)
      requires Valid()
      ensures Transfer.DecisionSpec(history, |history| - 1, client, out)
    {
      RunSerial(history, |history| - 1);
      var s := Now();
      out := Ixfr.HandleIxfr(s.serial, s.log, s.snaps, client);
      Transfer.DecisionExact(history, |history| - 1, |history| - 1, |history| - 1, client);
    }

    /** `diff_snapshots`: the difference of two committed serials, the second being the current one
        unless given. */
    method DiffSerials(from: int, to: Option<int>) returns (d: Option<Diff.RecordDiff>)
      requires Valid()
      ensures d.Some? <==> && (exists t | t in history :: t.serial == from)
                           && (to.Some? ==> exists t | t in history :: t.serial == to.value)
      ensures d.Some? ==>
              forall s, t | s in history && t in history && s.serial == from && t.serial == to.GetOr(serial) ::
                && Diff.Compares(Rrs(s.rows), Rrs(t.rows), d.value)
                && (d.value.entries == [] <==> WireSet(Rrs(s.rows)) == WireSet(Rrs(t.rows)))
    {
      assert history[|history| - 1] in history;
      var a := RecordsAt(from);
      var b := RecordsAt(to.GetOr(serial));
      if a.None? || b.None? { return None; }
      var diff := Diff.BuildRecordDiff(a.value, b.value);
      forall s, t | s in history && t in history && s.serial == from && t.serial == to.GetOr(serial)
        ensures Diff.Compares(Rrs(s.rows), Rrs(t.rows), diff)
        ensures diff.entries == [] <==> WireSet(Rrs(s.rows)) == WireSet(Rrs(t.rows))
      {
        HistoryKeys(history, s);
        HistoryKeys(history, t);
        Diff.SetsCompare(a.value, Rrs(s.rows), b.value, Rrs(t.rows), diff);
        Diff.SetsDiffer(a.value, Rrs(s.rows), b.value, Rrs(t.rows), diff.entries);
      }
      d := Some(diff);
    }
  }
}
