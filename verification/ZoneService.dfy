/** The transaction each operation stages, and the proof that committing it extends the run of
    the zone by one legal step. */
module ZoneService {
  import opened Records
  import opened Zone
  import opened Transaction
  import opened Replay
  import DynamicUpdate
  import ExternalDns
  import Rollback
  import Transfer
  import UpdateScan

  datatype ServiceError =
    | InvalidInput | InvalidZone | NotFound | SnapshotNotFound | SerialExhausted
    | AddRefused(error: AddError)
    | UpdateRefused(cause: DynamicUpdate.UpdateError)

  /** A requested record; an omitted TTL takes the zone's. */
  datatype Item = Item(owner: Owner, rtype: RType, value: Value, ttl: Option<int>, priority: Option<int>)

  function ItemRr(item: Item, zoneTtl: int): Rr {
    Rr(item.owner, item.rtype, item.value, if item.ttl.Some? then item.ttl.value else zoneTtl, item.priority)
  }

  function ItemRrs(items: seq<Item>, zoneTtl: int): (out: seq<Rr>)
    ensures |out| == |items| && forall i | 0 <= i < |items| :: out[i] == ItemRr(items[i], zoneTtl)
  { seq(|items|, i requires 0 <= i < |items| => ItemRr(items[i], zoneTtl)) }

  // ---- Transactions the operations stage ---------------------------------------------------

  lemma NotedOk(s: State, notes: seq<LogRow>)
    requires ValidState(s) && forall i | 0 <= i < |notes| :: notes[i].SoaLog? && notes[i].serial == s.serial + 1
    ensures TxOk(s, Note(Begin(s), notes))
  {
    BeginOk(s);
    NoteOk(s, Begin(s), notes);
  }

  lemma ClearedOk(s: State, notes: seq<LogRow>, dels: seq<Row>)
    requires ValidState(s) && ExternalDns.Listed(dels, s.rows)
    requires forall i | 0 <= i < |notes| :: notes[i].SoaLog? && notes[i].serial == s.serial + 1
    ensures TxOk(s, Delete(Note(Begin(s), notes), s.serial + 1, dels))
  {
    NotedOk(s, notes);
    DeleteOk(s, Note(Begin(s), notes), dels);
  }

  /** SOA rows, then deletes, then adds. */
  function SwapTx(s: State, notes: seq<LogRow>, dels: seq<Row>, adds: seq<Rr>): Tx {
    Insert(Delete(Note(Begin(s), notes), s.serial + 1, dels), s.serial + 1, adds)
  }

  lemma SwapIs(s: State, notes: seq<LogRow>, dels: seq<Row>, adds: seq<Rr>)
    ensures SwapTx(s, notes, dels, adds)
         == Insert(Delete(Note(Begin(s), notes), s.serial + 1, dels), s.serial + 1, adds)
  {
  }

  lemma SwapLogged(s: State, notes: seq<LogRow>, dels: seq<Row>, adds: seq<Rr>)
    ensures SwapTx(s, notes, dels, adds).logged
         == notes + Logged(s.serial + 1, Deleted, RrsOf(dels)) + Logged(s.serial + 1, Added, adds)
  {
    var noted := Note(Begin(s), notes);
    assert noted.logged == notes;
    var cleared := Delete(noted, s.serial + 1, dels);
    assert cleared.logged == notes + Logged(s.serial + 1, Deleted, RrsOf(dels));
    SwapIs(s, notes, dels, adds);
  }

  lemma SwapShape(s: State, notes: seq<LogRow>, dels: seq<Row>, adds: seq<Rr>, log: seq<LogRow>)
    requires forall i | 0 <= i < |notes| :: notes[i].SoaLog?
    requires log == SwapTx(s, notes, dels, adds).logged
    ensures NoLateDelete(log) && (log == [] ==> notes == [])
  {
    SwapLogged(s, notes, dels, adds);
    assert log + [] == log;
    DeletesThenAdds(notes, s.serial + 1, RrsOf(dels), adds, []);
  }

  lemma SwapOk(s: State, notes: seq<LogRow>, dels: seq<Row>, adds: seq<Rr>)
    requires ValidState(s) && ExternalDns.Listed(dels, s.rows)
    requires forall i | 0 <= i < |notes| :: notes[i].SoaLog? && notes[i].serial == s.serial + 1
    requires Coherent(Without(s.rows, Ids(dels)) + Numbered(adds, s.nextId))
    ensures TxOk(s, SwapTx(s, notes, dels, adds))
  {
    var cleared := Delete(Note(Begin(s), notes), s.serial + 1, dels);
    ClearedOk(s, notes, dels);
    InsertOk(s, cleared, adds);
    SwapIs(s, notes, dels, adds);
  }

  /** The validator's verdict on the new record, from the rows at its owner alone. */
  lemma ReplaceAdmitted(rows: seq<Row>, rr: Rr, id: int)
    requires ValidateAdd(SameOwner(rows, rr.owner), rr, Some(id)) == None
    ensures Admits(rows, rr, Some(id))
  {
    ValidateAddExact(SameOwner(rows, rr.owner), rr, Some(id));
  }

  lemma ReplaceShape(s: State, i: nat, rr: Rr)
    requires i < |s.rows|
    ensures var tx := Replace(Begin(s), s.serial + 1, i, rr); NoLateDelete(tx.logged) && tx.logged != []
  {
    var log := Replace(Begin(s), s.serial + 1, i, rr).logged;
    assert log == [] + Logged(s.serial + 1, Deleted, [s.rows[i].rr]) + Logged(s.serial + 1, Added, [rr]) + [];
    DeletesThenAdds([], s.serial + 1, [s.rows[i].rr], [rr], []);
  }

  lemma StillServed(meta: Meta, s: set<Rr>, before: Rr, after: Rr)
    requires ServesPrimary(meta, s) && (IsPrimaryNs(meta, before) ==> IsPrimaryNs(meta, after))
    ensures ServesPrimary(meta, s - {before} + {after})
  {
    var p :| p in s && IsPrimaryNs(meta, p);
    var t := s - {before} + {after};
    assert if p == before then after in t && IsPrimaryNs(meta, after) else p in t;
  }

  /** Replacing the record of row i. */
  lemma ReplaceStep(s: State, i: nat, rr: Rr)
    requires ValidState(s) && i < |s.rows| && ValidateAdd(SameOwner(s.rows, rr.owner), rr, Some(s.rows[i].id)) == None
    requires IsPrimaryNs(s.meta, s.rows[i].rr) ==> IsPrimaryNs(s.meta, rr)
    ensures var tx := Replace(Begin(s), s.serial + 1, i, rr); TxOk(s, tx) && ServesPrimary(s.meta, Rrs(tx.rows))
  {
    ReplaceAdmitted(s.rows, rr, s.rows[i].id);
    BeginOk(s);
    ReplaceOk(s, Begin(s), i, rr);
    StillServed(s.meta, Rrs(s.rows), s.rows[i].rr, rr);
  }

  // ---- Metadata updates ---------------------------------------------------------------------

  lemma {:induction false} SameOwnerCoherent(rows: seq<Row>, owner: Owner)
    requires Coherent(rows)
    ensures Coherent(SameOwner(rows, owner))
  {
    if rows != [] {
      Rollback.RestCoherent(rows);
      SameOwnerCoherent(rows[1..], owner);
      ConsCoherent(rows, SameOwner(rows[1..], owner));
    }
  }

  lemma ConsCoherent(rows: seq<Row>, near: seq<Row>)
    requires rows != [] && Coherent(rows) && Coherent(near) && forall r | r in near :: r in rows[1..]
    ensures Coherent([rows[0]] + near)
  {
    var out := [rows[0]] + near;
    forall i, j | 0 <= i < j < |out| ensures PairOk(out, i, j) {
      if i > 0 {
        assert PairOk(near, i - 1, j - 1);
      } else {
        assert near[j - 1] in near;
        var k :| 0 <= k < |rows[1..]| && rows[1..][k] == near[j - 1];
        assert PairOk(rows, 0, k + 1);
      }
    }
    assert rows[0] in rows && forall r | r in near :: r in rows;
    assert Consistent(out);
  }

  function NewPrimary(s: State, meta: Meta): Rr {
    PrimaryNsRr(meta, Rollback.ApexNsTtl(meta, RrsOf(SameOwner(s.rows, []))))
  }

  /** The unvalidated apex NS row of a metadata update fits the zone all the same. */
  lemma NewPrimaryFits(s: State, meta: Meta)
    requires ValidState(s) && MetaOk(meta) && !ServesPrimary(meta, Rrs(s.rows))
    ensures Admits(s.rows, NewPrimary(s, meta), None)
  {
    var rr, apex := NewPrimary(s, meta), SameOwner(s.rows, []);
    SameOwnerCoherent(s.rows, []);
    Rollback.ApexNsTtlJoins(meta, apex);
    forall e | e in s.rows ensures Compatible(Wire(e.rr), Wire(rr)) {
      assert e.rr in Rrs(s.rows) && RrOk(e.rr);
      if e.rr.owner == [] { assert e in apex; }
    }
  }

  lemma RetitledShape(s: State, meta: Meta, adds: seq<Rr>)
    ensures var tx := Note(Insert(Begin(s), s.serial + 1, adds), SoaRows(s.meta, meta, s.serial + 1));
            NoLateDelete(tx.logged) && tx.logged != []
  {
    var serial, notes := s.serial + 1, SoaRows(s.meta, meta, s.serial + 1);
    var log := Note(Insert(Begin(s), serial, adds), notes).logged;
    assert log == [] + Logged(serial, Deleted, []) + Logged(serial, Added, adds) + notes;
    DeletesThenAdds([], serial, [], adds, notes);
    assert log[|log| - 1] == notes[1];
  }

  /** Inserting one record that fits. */
  lemma InsertOneOk(s: State, rr: Rr)
    requires ValidState(s) && Admits(s.rows, rr, None)
    ensures TxOk(s, Insert(Begin(s), s.serial + 1, [rr]))
    ensures rr in Rrs(Insert(Begin(s), s.serial + 1, [rr]).rows)
  {
    BeginOk(s);
    assert Coherent(s.rows) by { assert WellFormed(s); }
    CoherentGrows(s.rows, Row(s.nextId, rr));
    assert Numbered([rr], s.nextId) == [Row(s.nextId, rr)];
    InsertOk(s, Begin(s), [rr]);
    assert rr in RrSet([rr]);
  }

  lemma PrimaryAddedOk(s: State, meta: Meta)
    requires ValidState(s) && MetaOk(meta) && !ServesPrimary(meta, Rrs(s.rows))
    ensures var tx := Insert(Begin(s), s.serial + 1, [NewPrimary(s, meta)]);
            TxOk(s, tx) && ServesPrimary(meta, Rrs(tx.rows))
  {
    NewPrimaryFits(s, meta);
    InsertOneOk(s, NewPrimary(s, meta));
    assert IsPrimaryNs(meta, NewPrimary(s, meta));
  }

  lemma SoaNoteOk(s: State, tx: Tx, meta: Meta)
    requires TxOk(s, tx)
    ensures TxOk(s, Note(tx, SoaRows(s.meta, meta, s.serial + 1)))
  {
    NoteOk(s, tx, SoaRows(s.meta, meta, s.serial + 1));
  }

  // ---- Each operation is a step of the run ----------------------------------------------------

  /** The runs whose last commit a strict secondary can replay from its log rows. */
  ghost function CleanRuns(): iset<seq<State>> {
    iset h: seq<State> | IsRun(h) && 1 < |h| && Transfer.CleanAt(h, |h| - 1)
  }

  /** The runs whose last commit, regrouped as deletes then adds, gives the committed records. */
  ghost function SettledRuns(): iset<seq<State>> {
    iset h: seq<State> | IsRun(h) && 1 < |h| && Transfer.SettledAt(h, |h| - 1)
  }

  lemma RunEnd(h: seq<State>, t: State, rows: seq<LogRow>)
    requires h != [] && IsRun(h + [t]) && t.log == h[|h| - 1].log + rows
    ensures h + [t] in CleanRuns() <==> NoLateDelete(rows)
    ensures h + [t] in SettledRuns() <==> Settled(rows)
  {
    assert Tail(h + [t], |h| - 1, |h|) == rows;
    assert Transfer.CleanAt(h + [t], |h|) <==> NoLateDelete(rows);
    assert Transfer.SettledAt(h + [t], |h|) <==> Settled(rows);
  }

  /** Committing a sound transaction extends the run. */
  lemma ExtendRun(h: seq<State>, s: State, tx: Tx, meta: Meta)
    requires IsRun(h) && s == h[|h| - 1] && s.serial < MAX_SERIAL && TxOk(s, tx) && MetaOk(meta)
    requires ServesPrimary(meta, Rrs(tx.rows)) && (tx.logged == [] ==> meta == s.meta)
    ensures IsRun(h + [Finish(s, tx, meta)])
    ensures h + [Finish(s, tx, meta)] in CleanRuns() <==> NoLateDelete(tx.logged)
    ensures h + [Finish(s, tx, meta)] in SettledRuns() <==> Settled(tx.logged)
  {
    RunValid(h, |h| - 1);
    FinishCommits(s, tx, meta);
    RunExtend(h, Finish(s, tx, meta));
    RunEnd(h, Finish(s, tx, meta), tx.logged);
  }

  lemma AddsOnly(serial: int, adds: seq<Rr>)
    ensures NoLateDelete([] + Logged(serial, Added, adds))
  {
  }

  lemma BulkOk(s: State, adds: seq<Rr>)
    requires ValidState(s) && Coherent(s.rows + Numbered(adds, s.nextId))
    ensures TxOk(s, Insert(Begin(s), s.serial + 1, adds))
    ensures ServesPrimary(s.meta, Rrs(Insert(Begin(s), s.serial + 1, adds).rows))
  {
    BeginOk(s);
    InsertOk(s, Begin(s), adds);
  }

  lemma DeleteOne(s: State, row: Row)
    requires ValidState(s) && row in s.rows && !Protected(s.meta, row.rr)
    ensures var tx := Delete(Begin(s), s.serial + 1, [row]);
            TxOk(s, tx) && Rrs(tx.rows) == Rrs(s.rows) - {row.rr}
  {
    BeginOk(s);
    DeleteOk(s, Begin(s), [row]);
    assert RrsOf([row]) == [row.rr] && RrSet([row.rr]) == {row.rr};
  }

  lemma PrimaryKept(meta: Meta, s: set<Rr>, rr: Rr)
    requires ServesPrimary(meta, s) && !IsPrimaryNs(meta, rr)
    ensures ServesPrimary(meta, s - {rr})
  {
    var p :| p in s && IsPrimaryNs(meta, p);
    assert p in s - {rr};
  }

  /** Appending to the rows. */
  lemma BulkStep(h: seq<State>, s: State, adds: seq<Rr>)
    requires IsRun(h) && s == h[|h| - 1] && s.serial < MAX_SERIAL
    requires Coherent(s.rows + Numbered(adds, s.nextId))
    ensures h + [Finish(s, Insert(Begin(s), s.serial + 1, adds), s.meta)] in CleanRuns()
  {
    RunValid(h, |h| - 1);
    BulkOk(s, adds);
    AddsOnly(s.serial + 1, adds);
    ExtendRun(h, s, Insert(Begin(s), s.serial + 1, adds), s.meta);
  }

  lemma DeleteStep(h: seq<State>, s: State, row: Row)
    requires IsRun(h) && s == h[|h| - 1] && s.serial < MAX_SERIAL && row in s.rows && !Protected(s.meta, row.rr)
    ensures var t := Finish(s, Delete(Begin(s), s.serial + 1, [row]), s.meta);
            && h + [t] in CleanRuns()
            && Rrs(t.rows) == Rrs(s.rows) - {row.rr}
  {
    RunValid(h, |h| - 1);
    DeleteOne(s, row);
    PrimaryKept(s.meta, Rrs(s.rows), row.rr);
    var tx := Delete(Begin(s), s.serial + 1, [row]);
    assert NoLateDelete(tx.logged) by { assert |tx.logged| == 1; }
    ExtendRun(h, s, tx, s.meta);
  }

  lemma UpdateStep(h: seq<State>, s: State, i: nat, rr: Rr)
    requires IsRun(h) && s == h[|h| - 1] && s.serial < MAX_SERIAL && i < |s.rows|
    requires ValidateAdd(SameOwner(s.rows, rr.owner), rr, Some(s.rows[i].id)) == None
    requires IsPrimaryNs(s.meta, s.rows[i].rr) ==> IsPrimaryNs(s.meta, rr)
    ensures var t := Finish(s, Replace(Begin(s), s.serial + 1, i, rr), s.meta);
            h + [t] in CleanRuns()
  {
    RunValid(h, |h| - 1);
    ReplaceStep(s, i, rr);
    ReplaceShape(s, i, rr);
    ExtendRun(h, s, Replace(Begin(s), s.serial + 1, i, rr), s.meta);
  }

  lemma RetitleStep(h: seq<State>, s: State, meta: Meta, adds: seq<Rr>)
    requires IsRun(h) && s == h[|h| - 1] && s.serial < MAX_SERIAL && MetaOk(meta)
    requires adds == if ServesPrimary(meta, Rrs(s.rows)) then [] else [NewPrimary(s, meta)]
    ensures h + [Finish(s, Note(Insert(Begin(s), s.serial + 1, adds), SoaRows(s.meta, meta, s.serial + 1)), meta)]
            in CleanRuns()
  {
    RunValid(h, |h| - 1);
    var grown := Insert(Begin(s), s.serial + 1, adds);
    if adds == [] {
      BeginOk(s);
      assert grown == Begin(s);
    } else {
      PrimaryAddedOk(s, meta);
    }
    SoaNoteOk(s, grown, meta);
    RetitledShape(s, meta, adds);
    ExtendRun(h, s, Note(grown, SoaRows(s.meta, meta, s.serial + 1)), meta);
  }

  lemma ForceStep(h: seq<State>, s: State)
    requires IsRun(h) && s == h[|h| - 1] && s.serial < MAX_SERIAL
    ensures var t := Finish(s, Begin(s), s.meta); h + [t] in CleanRuns()
  {
    RunValid(h, |h| - 1);
    BeginOk(s);
    ExtendRun(h, s, Begin(s), s.meta);
  }

  /** SOA rows, deletes and adds whose result is coherent and serves the primary. */
  lemma SwapStep(h: seq<State>, s: State, notes: seq<LogRow>, dels: seq<Row>, adds: seq<Rr>, meta: Meta)
    requires IsRun(h) && s == h[|h| - 1] && s.serial < MAX_SERIAL && MetaOk(meta)
    requires forall i | 0 <= i < |notes| :: notes[i].SoaLog? && notes[i].serial == s.serial + 1
    requires ExternalDns.Listed(dels, s.rows)
    requires Coherent(Without(s.rows, Ids(dels)) + Numbered(adds, s.nextId))
    requires ServesPrimary(meta, Rrs(Without(s.rows, Ids(dels)) + Numbered(adds, s.nextId)))
    requires notes == [] ==> meta == s.meta
    ensures h + [Finish(s, SwapTx(s, notes, dels, adds), meta)] in CleanRuns()
  {
    RunValid(h, |h| - 1);
    SwapOk(s, notes, dels, adds);
    var tx := SwapTx(s, notes, dels, adds);
    SwapShape(s, notes, dels, adds, tx.logged);
    ExtendRun(h, s, tx, meta);
  }

  lemma MessageOk(s: State, ops: seq<DynamicUpdate.UpdateOp>, tx: Tx)
    requires ValidState(s) && DynamicUpdate.Message(s, ops) == DynamicUpdate.Staged(tx)
    ensures TxOk(s, tx) && ServesPrimary(s.meta, Rrs(tx.rows))
  {
    BeginOk(s);
    assert ServesPrimary(s.meta, Rrs(s.rows)) by { assert WellFormed(s); }
    DynamicUpdate.ApplyOpsOk(s, s.meta, Begin(s), ops);
  }

  /** A committed message extends the run; its serial replays, strictly or at all, exactly when the
      scan of its operations says so. */
  lemma MessageStep(h: seq<State>, s: State, ops: seq<DynamicUpdate.UpdateOp>, tx: Tx)
    requires IsRun(h) && s == h[|h| - 1] && s.serial < MAX_SERIAL
    requires DynamicUpdate.Message(s, ops) == DynamicUpdate.Staged(tx)
    ensures IsRun(h + [Finish(s, tx, s.meta)])
    ensures h + [Finish(s, tx, s.meta)] in CleanRuns() <==> !UpdateScan.DeletesOwn(s.rows, ops)
    ensures h + [Finish(s, tx, s.meta)] in SettledRuns() <==> !UpdateScan.LosesOwn(s.rows, ops)
    ensures UpdateScan.Leaves(s.rows, ops, Rrs(tx.rows))
  {
    RunValid(h, |h| - 1);
    MessageOk(s, ops, tx);
    UpdateScan.UpdateStrictExact(s, ops, tx);
    UpdateScan.UpdateReplayExact(s, ops, tx);
    UpdateScan.MessageResult(s, ops, tx);
    ExtendRun(h, s, tx, s.meta);
  }

  /** A message that logs nothing leaves the records as they were. */
  lemma QuietMessage(h: seq<State>, s: State, ops: seq<DynamicUpdate.UpdateOp>, tx: Tx)
    requires IsRun(h) && s == h[|h| - 1]
    requires DynamicUpdate.Message(s, ops) == DynamicUpdate.Staged(tx) && tx.logged == []
    ensures UpdateScan.Leaves(s.rows, ops, Rrs(s.rows))
  {
    RunValid(h, |h| - 1);
    MessageOk(s, ops, tx);
    assert Explained(s, tx);
    UpdateScan.MessageResult(s, ops, tx);
  }
}
