/** One zone transaction: the row writes and log rows it stages, and the conditions
    under which committing it is a legal step of the zone (record/bulk.rs,
    zone/snapshot.rs, zone/update.rs). */
module Transaction {
  import opened Records
  import opened Zone
  import opened Replay
  import History

  /** Rows and log rows staged so far. */
  datatype Tx = Tx(rows: seq<Row>, nextId: int, logged: seq<LogRow>)

  function Begin(s: State): Tx { Tx(s.rows, s.nextId, []) }

  function Ids(rows: seq<Row>): set<int> { set r | r in rows :: r.id }

  /** The rows whose id is not deleted. */
  function Without(rows: seq<Row>, ids: set<int>): (out: seq<Row>)
    ensures forall r :: r in out <==> r in rows && r.id !in ids
  {
    if rows == [] then []
    else
      var n := |rows| - 1;
      assert rows == rows[..n] + [rows[n]];
      Without(rows[..n], ids) + (if rows[n].id in ids then [] else [rows[n]])
  }

  /** Inserted rows take the next ids in order. */
  function Numbered(rrs: seq<Rr>, next: int): (out: seq<Row>)
    ensures |out| == |rrs| && forall i | 0 <= i < |rrs| :: out[i] == Row(next + i, rrs[i])
  {
    seq(|rrs|, i requires 0 <= i < |rrs| => Row(next + i, rrs[i]))
  }

  /** `delete_records_with_changes_tx`. */
  function Delete(tx: Tx, serial: int, dels: seq<Row>): Tx {
    tx.(rows := Without(tx.rows, Ids(dels)), logged := tx.logged + Logged(serial, Deleted, RrsOf(dels)))
  }

  /** `insert_records_with_changes_tx`. */
  function Insert(tx: Tx, serial: int, rrs: seq<Rr>): Tx {
    Tx(tx.rows + Numbered(rrs, tx.nextId), tx.nextId + |rrs|, tx.logged + Logged(serial, Added, rrs))
  }

  /** `update_record_tx` with its DEL(old) + ADD(new) log rows. */
  function Replace(tx: Tx, serial: int, i: nat, rr: Rr): Tx
    requires i < |tx.rows|
  {
    tx.(rows := tx.rows[i := Row(tx.rows[i].id, rr)],
        logged := tx.logged + Logged(serial, Deleted, [tx.rows[i].rr]) + Logged(serial, Added, [rr]))
  }

  /** `soa_replacement_changes`: DEL(old) + ADD(new) SOA rows. */
  function SoaRows(before: Meta, after: Meta, serial: int): seq<LogRow> {
    [SoaLog(serial, Deleted, before, serial - 1), SoaLog(serial, Added, after, serial)]
  }

  function Note(tx: Tx, notes: seq<LogRow>): Tx { tx.(logged := tx.logged + notes) }

  /** The zone after commit: serial advanced once, one snapshot saved. */
  function Finish(s: State, tx: Tx, meta: Meta): State {
    State(meta, s.serial + 1, tx.rows, tx.nextId, s.log + tx.logged, s.snaps[s.serial + 1 := SnapshotOf(meta)])
  }

  ghost predicate FreshIds(tx: Tx) {
    0 < tx.nextId && UniqueIds(tx.rows) && forall r | r in tx.rows :: 0 < r.id < tx.nextId
  }

  /** The staged log rows explain the staged rows, which are coherent. */
  ghost predicate TxOk(s: State, tx: Tx) { Explained(s, tx) == true }

  ghost predicate Explained(s: State, tx: Tx) {
    && Coherent(tx.rows)
    && FreshIds(tx)
    && KeyUnique(Rrs(s.rows))
    && Legal(Rrs(s.rows), tx.logged)
    && Play(Rrs(s.rows), tx.logged) == Rrs(tx.rows)
    && (forall e | e in tx.logged :: e.serial == s.serial + 1)
  }

  lemma BeginOk(s: State)
    requires ValidState(s)
    ensures TxOk(s, Begin(s))
  {
    History.CoherentKeys(s.rows);
  }

  // ---- Row lists ---------------------------------------------------------------

  lemma UniqueIdsGrow(rows: seq<Row>, row: Row)
    requires UniqueIds(rows) && forall e | e in rows :: e.id != row.id
    ensures UniqueIds(rows + [row])
  {
    assert forall i | 0 <= i < |rows| :: rows[i] in rows;
  }

  /** The last row against the ones before it. */
  lemma LastRow(rows: seq<Row>)
    requires rows != [] && Coherent(rows) && UniqueIds(rows)
    ensures Coherent(rows[..|rows| - 1]) && UniqueIds(rows[..|rows| - 1])
    ensures forall e | e in rows[..|rows| - 1] ::
              e.id != rows[|rows| - 1].id && Compatible(Wire(e.rr), Wire(rows[|rows| - 1].rr))
    ensures RrOk(rows[|rows| - 1].rr)
  {
    var n := |rows| - 1;
    assert rows[n] in rows;
    forall i, j | 0 <= i < j < n ensures PairOk(rows[..n], i, j) { assert PairOk(rows, i, j); }
    forall e | e in rows[..n] ensures e.id != rows[n].id && Compatible(Wire(e.rr), Wire(rows[n].rr)) {
      var j :| 0 <= j < n && rows[j] == e;
      assert PairOk(rows, j, n);
    }
  }

  lemma {:induction false} WithoutCoherent(rows: seq<Row>, ids: set<int>)
    requires Coherent(rows) && UniqueIds(rows)
    ensures Coherent(Without(rows, ids)) && UniqueIds(Without(rows, ids))
  {
    if rows != [] {
      var n := |rows| - 1;
      LastRow(rows);
      WithoutCoherent(rows[..n], ids);
      var out := Without(rows[..n], ids);
      if rows[n].id in ids {
        assert Without(rows, ids) == out;
      } else {
        assert Without(rows, ids) == out + [rows[n]];
        assert Admits(out, rows[n].rr, None);
        CoherentGrows(out, rows[n]);
        UniqueIdsGrow(out, rows[n]);
      }
    }
  }

  lemma SameRow(rows: seq<Row>, a: Row, b: Row)
    requires UniqueIds(rows) && a in rows && b in rows && (a.id == b.id || KeyOf(a.rr) == KeyOf(b.rr))
    requires Coherent(rows)
    ensures a == b
  {
    var i :| 0 <= i < |rows| && rows[i] == a;
    var j :| 0 <= j < |rows| && rows[j] == b;
    assert i < j ==> PairOk(rows, i, j);
    assert j < i ==> PairOk(rows, j, i);
  }

  /** Deleting listed rows removes exactly their records. */
  lemma WithoutRrs(rows: seq<Row>, dels: seq<Row>)
    requires Coherent(rows) && UniqueIds(rows) && forall d | d in dels :: d in rows
    ensures Rrs(Without(rows, Ids(dels))) == Rrs(rows) - RrSet(RrsOf(dels))
  {
    forall r | r in rows ensures r.id in Ids(dels) <==> r.rr in RrsOf(dels) {
      if r.id in Ids(dels) {
        var d :| d in dels && d.id == r.id;
        SameRow(rows, d, r);
        var i :| 0 <= i < |dels| && dels[i] == d;
        assert RrsOf(dels)[i] == r.rr;
      }
      if r.rr in RrsOf(dels) {
        var i :| 0 <= i < |dels| && RrsOf(dels)[i] == r.rr;
        assert dels[i] in dels;
        SameRow(rows, dels[i], r);
      }
    }
  }

  lemma NumberedRrs(rrs: seq<Rr>, next: int)
    ensures Rrs(Numbered(rrs, next)) == RrSet(rrs)
  {
    forall rr | rr in rrs ensures rr in Rrs(Numbered(rrs, next)) {
      var i :| 0 <= i < |rrs| && rrs[i] == rr;
      assert Numbered(rrs, next)[i] in Numbered(rrs, next);
    }
  }

  // ---- Staging keeps the transaction sound ----------------------------------------

  lemma DeleteOk(s: State, tx: Tx, dels: seq<Row>)
    requires TxOk(s, tx)
    requires forall d | d in dels :: d in tx.rows
    requires forall i, j | 0 <= i < j < |dels| :: dels[i].id != dels[j].id
    ensures TxOk(s, Delete(tx, s.serial + 1, dels))
    ensures Rrs(Delete(tx, s.serial + 1, dels).rows) == Rrs(tx.rows) - RrSet(RrsOf(dels))
  {
    WithoutCoherent(tx.rows, Ids(dels));
    WithoutRrs(tx.rows, dels);
    DeletePlays(s, tx, dels);
  }

  lemma DeletePlays(s: State, tx: Tx, dels: seq<Row>)
    requires TxOk(s, tx)
    requires forall d | d in dels :: d in tx.rows
    requires forall i, j | 0 <= i < j < |dels| :: dels[i].id != dels[j].id
    ensures Legal(Rrs(s.rows), tx.logged + Logged(s.serial + 1, Deleted, RrsOf(dels)))
    ensures Play(Rrs(s.rows), tx.logged + Logged(s.serial + 1, Deleted, RrsOf(dels)))
         == Rrs(tx.rows) - RrSet(RrsOf(dels))
  {
    var rrs := RrsOf(dels);
    forall rr | rr in rrs ensures rr in Rrs(tx.rows) {
      var i :| 0 <= i < |rrs| && rrs[i] == rr;
      assert dels[i] in dels;
    }
    forall i, j | 0 <= i < j < |rrs| ensures rrs[i] != rrs[j] {
      assert dels[i] in dels && dels[j] in dels;
      if rrs[i] == rrs[j] { SameRow(tx.rows, dels[i], dels[j]); }
    }
    PlayDeletes(Rrs(tx.rows), s.serial + 1, rrs);
    PlayAppend(Rrs(s.rows), tx.logged, Logged(s.serial + 1, Deleted, rrs));
  }

  lemma InsertOk(s: State, tx: Tx, rrs: seq<Rr>)
    requires TxOk(s, tx)
    requires Coherent(tx.rows + Numbered(rrs, tx.nextId))
    ensures TxOk(s, Insert(tx, s.serial + 1, rrs))
    ensures Rrs(Insert(tx, s.serial + 1, rrs).rows) == Rrs(tx.rows) + RrSet(rrs)
  {
    var out := Insert(tx, s.serial + 1, rrs);
    NumberedRrs(rrs, tx.nextId);
    assert Rrs(out.rows) == Rrs(tx.rows) + RrSet(rrs);
    assert FreshIds(out) by {
      forall i | 0 <= i < |tx.rows| ensures tx.rows[i].id < tx.nextId { assert tx.rows[i] in tx.rows; }
    }
    InsertPlays(s, tx, rrs);
  }

  lemma DistinctKeysApart(rows: seq<Row>, rrs: seq<Rr>, next: int)
    requires KeysApart(rows + Numbered(rrs, next))
    ensures forall rr | rr in rrs :: KeyFree(Rrs(rows), KeyOf(rr))
    ensures forall i, j | 0 <= i < j < |rrs| :: KeyOf(rrs[i]) != KeyOf(rrs[j])
  {
    var all, n := rows + Numbered(rrs, next), |rows|;
    forall rr, a | rr in rrs && a in Rrs(rows) ensures KeyOf(a) != KeyOf(rr) {
      var i :| 0 <= i < |rrs| && rrs[i] == rr;
      var j :| 0 <= j < n && rows[j].rr == a;
      assert Apart(all, j, n + i);
    }
    forall i, j | 0 <= i < j < |rrs| ensures KeyOf(rrs[i]) != KeyOf(rrs[j]) {
      assert Apart(all, n + i, n + j);
    }
  }

  /** Coherence of the grown rows: the new records bring fresh, distinct identities. */
  lemma FreshKeys(rows: seq<Row>, rrs: seq<Rr>, next: int)
    requires Coherent(rows + Numbered(rrs, next))
    ensures forall rr | rr in rrs :: KeyFree(Rrs(rows), KeyOf(rr))
    ensures forall i, j | 0 <= i < j < |rrs| :: KeyOf(rrs[i]) != KeyOf(rrs[j])
  {
    History.CoherentKeys(rows + Numbered(rrs, next));
    DistinctKeysApart(rows, rrs, next);
  }

  lemma InsertPlays(s: State, tx: Tx, rrs: seq<Rr>)
    requires TxOk(s, tx)
    requires Coherent(tx.rows + Numbered(rrs, tx.nextId))
    ensures Legal(Rrs(s.rows), tx.logged + Logged(s.serial + 1, Added, rrs))
    ensures Play(Rrs(s.rows), tx.logged + Logged(s.serial + 1, Added, rrs)) == Rrs(tx.rows) + RrSet(rrs)
  {
    FreshKeys(tx.rows, rrs, tx.nextId);
    PlayAdds(Rrs(tx.rows), s.serial + 1, rrs);
    PlayAppend(Rrs(s.rows), tx.logged, Logged(s.serial + 1, Added, rrs));
  }

  lemma {:induction false} PlayNotes(s: set<Rr>, notes: seq<LogRow>)
    requires forall e | e in notes :: e.SoaLog?
    ensures Legal(s, notes) && Play(s, notes) == s
  {
    if notes != [] {
      assert notes[|notes| - 1] in notes;
      PlayNotes(s, notes[..|notes| - 1]);
    }
  }

  lemma NoteOk(s: State, tx: Tx, notes: seq<LogRow>)
    requires TxOk(s, tx) && forall e | e in notes :: e.SoaLog? && e.serial == s.serial + 1
    ensures TxOk(s, Note(tx, notes))
  {
    PlayNotes(Rrs(tx.rows), notes);
    PlayAppend(Rrs(s.rows), tx.logged, notes);
  }

  lemma ReplacePlays(s: set<Rr>, log: seq<LogRow>, serial: int, before: Rr, after: Rr)
    requires Legal(s, log) && before in Play(s, log) && KeyFree(Play(s, log) - {before}, KeyOf(after))
    ensures var out := log + Logged(serial, Deleted, [before]) + Logged(serial, Added, [after]);
            Legal(s, out) && Play(s, out) == Play(s, log) - {before} + {after}
  {
    var r, d, a := Play(s, log), Logged(serial, Deleted, [before]), Logged(serial, Added, [after]);
    PlayDeletes(r, serial, [before]);
    assert RrSet([before]) == {before} && RrSet([after]) == {after};
    PlayAppend(s, log, d);
    PlayAdds(r - {before}, serial, [after]);
    PlayAppend(s, log + d, a);
  }

  /** Replacing one row in place, the rest untouched. */
  lemma ReplaceOk(s: State, tx: Tx, i: nat, rr: Rr)
    requires TxOk(s, tx) && i < |tx.rows|
    requires Admits(tx.rows, rr, Some(tx.rows[i].id))
    ensures TxOk(s, Replace(tx, s.serial + 1, i, rr))
    ensures Rrs(Replace(tx, s.serial + 1, i, rr).rows) == Rrs(tx.rows) - {tx.rows[i].rr} + {rr}
  {
    assert tx.rows[i] in tx.rows;
    ReplacedRows(tx.rows, i, rr);
    ReplacePlays(Rrs(s.rows), tx.logged, s.serial + 1, tx.rows[i].rr, rr);
    ReplacedIds(tx, i, rr);
  }

  lemma ReplacedIds(tx: Tx, i: nat, rr: Rr)
    requires FreshIds(tx) && i < |tx.rows|
    ensures FreshIds(tx.(rows := tx.rows[i := Row(tx.rows[i].id, rr)]))
  {
    var out := tx.rows[i := Row(tx.rows[i].id, rr)];
    assert forall j | 0 <= j < |out| :: out[j].id == tx.rows[j].id && tx.rows[j] in tx.rows;
  }

  lemma ReplacedRows(rows: seq<Row>, i: nat, rr: Rr)
    requires Coherent(rows) && UniqueIds(rows) && i < |rows|
    requires Admits(rows, rr, Some(rows[i].id))
    ensures var out := rows[i := Row(rows[i].id, rr)];
            && Coherent(out) && UniqueIds(out)
            && Rrs(out) == Rrs(rows) - {rows[i].rr} + {rr}
    ensures KeyFree(Rrs(rows) - {rows[i].rr}, KeyOf(rr))
  {
    var out := rows[i := Row(rows[i].id, rr)];
    forall j | 0 <= j < |rows| && j != i ensures rows[j].rr != rows[i].rr && Compatible(Wire(rows[j].rr), Wire(rr)) {
      assert rows[j] in rows && rows[j].id != rows[i].id;
      assert j < i ==> PairOk(rows, j, i);
      assert i < j ==> PairOk(rows, i, j);
    }
    forall j, k | 0 <= j < k < |out| ensures PairOk(out, j, k) {
      if j != i && k != i { assert PairOk(rows, j, k); }
    }
    forall x ensures x in Rrs(out) <==> x in Rrs(rows) - {rows[i].rr} + {rr} {
      if x in Rrs(rows) - {rows[i].rr} {
        var j :| 0 <= j < |rows| && rows[j].rr == x;
        assert out[j] == rows[j];
      }
      assert out[i].rr == rr;
    }
    forall a | a in Rrs(rows) - {rows[i].rr} ensures KeyOf(a) != KeyOf(rr) {
      var j :| 0 <= j < |rows| && rows[j].rr == a;
    }
  }

  lemma FinishValid(s: State, tx: Tx, meta: Meta)
    requires ValidState(s) && s.serial < MAX_SERIAL && TxOk(s, tx) && MetaOk(meta)
    requires ServesPrimary(meta, Rrs(tx.rows))
    ensures ValidState(Finish(s, tx, meta))
  {
    assert FreshIds(tx);
  }

  /** Committing a sound transaction is a step of the zone. */
  lemma FinishCommits(s: State, tx: Tx, meta: Meta)
    requires ValidState(s) && s.serial < MAX_SERIAL && TxOk(s, tx) && MetaOk(meta)
    requires ServesPrimary(meta, Rrs(tx.rows))
    requires tx.logged == [] ==> meta == s.meta
    ensures Commit(s, Finish(s, tx, meta))
    ensures NewRows(s, Finish(s, tx, meta)) == tx.logged
  {
    FinishValid(s, tx, meta);
    assert Explained(s, tx);
    LoggedCommit(s, Finish(s, tx, meta), tx.logged);
  }

  lemma LoggedCommit(s: State, t: State, rows: seq<LogRow>)
    requires t.serial == s.serial + 1 && t.snaps == s.snaps[t.serial := SnapshotOf(t.meta)] && t.log == s.log + rows
    requires (forall e | e in rows :: e.serial == t.serial) && Legal(Rrs(s.rows), rows)
    requires Play(Rrs(s.rows), rows) == Rrs(t.rows) && (rows == [] ==> t.meta == s.meta) && ValidState(t)
    ensures Commit(s, t) && NewRows(s, t) == rows
  {
    assert NewRows(s, t) == rows;
  }

  // ---- Order of the log rows within one serial ---------------------------------------

  /** Deletes, then adds, with SOA rows anywhere outside: never a delete after its add. */
  lemma DeletesThenAdds(pre: seq<LogRow>, serial: int, dels: seq<Rr>, adds: seq<Rr>, post: seq<LogRow>)
    requires forall i | 0 <= i < |pre| :: pre[i].SoaLog?
    requires forall i | 0 <= i < |post| :: post[i].SoaLog?
    ensures NoLateDelete(pre + Logged(serial, Deleted, dels) + Logged(serial, Added, adds) + post)
  {
    var log := pre + Logged(serial, Deleted, dels) + Logged(serial, Added, adds) + post;
    var p, q, r := |pre|, |pre| + |dels|, |pre| + |dels| + |adds|;
    assert forall i | 0 <= i < p :: log[i] == pre[i];
    assert forall i | r <= i < |log| :: log[i] == post[i - r];
    assert forall i | 0 <= i < |log| && log[i].RrLog? :: p <= i < r && (log[i].op == Deleted <==> i < q);
  }
}
