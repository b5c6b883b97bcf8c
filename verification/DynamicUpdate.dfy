/** RFC 2136 dynamic updates (dynamic_update/mod.rs): operations applied one after another
    inside one transaction, all logged under one serial in the order they take effect. */
module DynamicUpdate {
  import opened Records
  import opened Zone
  import opened Transaction
  import opened Replay
  import opened Batch
  import ExternalDns

  datatype UpdateOp =
    | AddRr(rr: Rr)
    | DeleteRrset(owner: Owner, rtype: Option<RType>)
    | DeleteRr(owner: Owner, dtype: RType, value: Value, priority: Option<int>)

  datatype UpdateError = Refused(error: AddError) | ProtectedRecord

  datatype Staged = Staged(tx: Tx) | Aborted(error: UpdateError)

  /** The filter of `delete_matching`: the value is compared without its priority, the
      priority column on its own. */
  predicate Matches(op: UpdateOp, rr: Rr) {
    && rr.rtype != SOA
    && match op
       case AddRr(_) => false
       case DeleteRrset(o, t) => rr.owner == o && (t == None || t == Some(rr.rtype))
       case DeleteRr(o, t, v, p) =>
         rr.owner == o && rr.rtype == t && rr.value.canon == v.canon && (p == None || rr.priority == p)
  }

  function Matched(op: UpdateOp, rows: seq<Row>): (out: seq<Row>)
    ensures forall r :: r in out <==> r in rows && Matches(op, r.rr)
  {
    if rows == [] then []
    else
      var n := |rows| - 1;
      assert rows == rows[..n] + [rows[n]];
      Matched(op, rows[..n]) + (if Matches(op, rows[n].rr) then [rows[n]] else [])
  }

  function ApplyOp(meta: Meta, tx: Tx, serial: int, op: UpdateOp): Staged {
    if op.AddRr? then
      // An rdata-identical add is a silent no-op (section 3.4.2.2 of RFC 2136).
      if exists e | e in tx.rows :: KeyOf(e.rr) == KeyOf(op.rr) then Staged(tx)
      else
        match ValidateAdd(tx.rows, op.rr, None)
        case Some(e) => Aborted(Refused(e))
        case None => Staged(Insert(tx, serial, [op.rr]))
    else
      var matched := Matched(op, tx.rows);
      if matched == [] then Staged(tx)
      else if exists r | r in matched :: Protected(meta, r.rr) then Aborted(ProtectedRecord)
      else Staged(Delete(tx, serial, matched))
  }

  function ApplyOps(meta: Meta, tx: Tx, serial: int, ops: seq<UpdateOp>): Staged {
    if ops == [] then Staged(tx)
    else
      match ApplyOps(meta, tx, serial, ops[..|ops| - 1])
      case Aborted(e) => Aborted(e)
      case Staged(t) => ApplyOp(meta, t, serial, ops[|ops| - 1])
  }

  /** A whole message against a committed zone. */
  function Message(s: State, ops: seq<UpdateOp>): Staged { ApplyOps(s.meta, Begin(s), s.serial + 1, ops) }

  lemma {:induction false} MatchedUnique(op: UpdateOp, rows: seq<Row>)
    requires UniqueIds(rows)
    ensures UniqueIds(Matched(op, rows))
  {
    if rows != [] {
      var n := |rows| - 1;
      MatchedUnique(op, rows[..n]);
      var out := Matched(op, rows[..n]);
      forall e | e in out ensures e.id != rows[n].id { var i :| 0 <= i < n && rows[i] == e; }
      UniqueIdsGrow(out, rows[n]);
    }
  }

  lemma AddOk(s: State, meta: Meta, tx: Tx, rr: Rr)
    requires TxOk(s, tx) && ServesPrimary(meta, Rrs(tx.rows)) && ValidateAdd(tx.rows, rr, None) == None
    ensures TxOk(s, Insert(tx, s.serial + 1, [rr])) && ServesPrimary(meta, Rrs(Insert(tx, s.serial + 1, [rr]).rows))
  {
    assert Explained(s, tx);
    RestrictedValidationExact(tx.rows, Row(tx.nextId, rr));
    assert Numbered([rr], tx.nextId) == [Row(tx.nextId, rr)];
    InsertOk(s, tx, [rr]);
  }

  lemma RemoveOk(s: State, meta: Meta, tx: Tx, op: UpdateOp)
    requires TxOk(s, tx) && ServesPrimary(meta, Rrs(tx.rows))
    requires Unprotected(meta, op, tx.rows)
    ensures var out := Delete(tx, s.serial + 1, Matched(op, tx.rows));
            TxOk(s, out) && ServesPrimary(meta, Rrs(out.rows))
  {
    assert Explained(s, tx);
    MatchedUnique(op, tx.rows);
    DeleteOk(s, tx, Matched(op, tx.rows));
    var rr :| rr in Rrs(tx.rows) && IsPrimaryNs(meta, rr);
    assert rr !in RrSet(RrsOf(Matched(op, tx.rows)));
  }

  /** What a staged operation does: nothing, one insert, or one delete of unprotected rows. */
  lemma OpCases(meta: Meta, tx: Tx, serial: int, op: UpdateOp, out: Tx)
    requires ApplyOp(meta, tx, serial, op) == Staged(out)
    ensures || out == tx
            || (op.AddRr? && ValidateAdd(tx.rows, op.rr, None) == None && out == Insert(tx, serial, [op.rr]))
            || (Unprotected(meta, op, tx.rows) && out == Delete(tx, serial, Matched(op, tx.rows)))
  {
  }

  ghost predicate Unprotected(meta: Meta, op: UpdateOp, rows: seq<Row>) {
    forall r | r in Matched(op, rows) :: !Protected(meta, r.rr)
  }

  /** One operation keeps the transaction sound and the primary NS in place. */
  lemma ApplyOpOk(s: State, meta: Meta, tx: Tx, op: UpdateOp, out: Tx)
    requires TxOk(s, tx) && ServesPrimary(meta, Rrs(tx.rows)) && ApplyOp(meta, tx, s.serial + 1, op) == Staged(out)
    ensures TxOk(s, out) && ServesPrimary(meta, Rrs(out.rows))
  {
    OpCases(meta, tx, s.serial + 1, op, out);
    if out != tx {
      if op.AddRr? && out == Insert(tx, s.serial + 1, [op.rr]) && ValidateAdd(tx.rows, op.rr, None) == None {
        AddOk(s, meta, tx, op.rr);
      } else {
        RemoveOk(s, meta, tx, op);
      }
    }
  }

  lemma {:induction false} ApplyOpsOk(s: State, meta: Meta, tx: Tx, ops: seq<UpdateOp>)
    requires TxOk(s, tx) && ServesPrimary(meta, Rrs(tx.rows))
    ensures var r := ApplyOps(meta, tx, s.serial + 1, ops);
            r.Staged? ==> TxOk(s, r.tx) && ServesPrimary(meta, Rrs(r.tx.rows))
  {
    if ops != [] {
      ApplyOpsOk(s, meta, tx, ops[..|ops| - 1]);
      var r := ApplyOps(meta, tx, s.serial + 1, ops[..|ops| - 1]);
      var last := ApplyOps(meta, tx, s.serial + 1, ops);
      if r.Staged? && last.Staged? { ApplyOpOk(s, meta, r.tx, ops[|ops| - 1], last.tx); }
    }
  }

  // ---- Deleting one exact record -------------------------------------------------------------

  /** A single-record delete finds the record of its identity, except an MX or SRV row whose
      priority column is empty: the wire always carries the priority, the column need not. */
  lemma DeleteRrExact(op: UpdateOp, rr: Rr)
    requires op.DeleteRr? && RrOk(rr)
    requires op.priority.Some? <==> HasPriority(op.dtype)
    ensures Matches(op, rr) <==>
            && KeyOf(rr) == Key(op.owner, op.dtype, op.value.canon, Pref(op.dtype, op.priority))
            && !(HasPriority(op.dtype) && rr.priority == None)
  {
  }

  // ---- Adding a record and deleting it again in one message ----------------------------------------

  lemma OnlyMatch(rows: seq<Row>, id: int, rr: Rr, op: UpdateOp)
    requires op == DeleteRr(rr.owner, rr.rtype, rr.value, rr.priority) && RrOk(rr)
    requires rr.priority.Some? <==> HasPriority(rr.rtype)
    requires forall e | e in rows :: KeyOf(e.rr) != KeyOf(rr)
    ensures Matched(op, rows + [Row(id, rr)]) == [Row(id, rr)]
  {
    assert (rows + [Row(id, rr)])[..|rows|] == rows;
    assert forall e | e in rows :: !Matches(op, e.rr);
    ExternalDns.SomeMember(Matched(op, rows));
  }

  lemma TwoOps(meta: Meta, tx: Tx, serial: int, a: UpdateOp, b: UpdateOp)
    requires ApplyOp(meta, tx, serial, a).Staged?
    ensures ApplyOps(meta, tx, serial, [a, b]) == ApplyOp(meta, ApplyOp(meta, tx, serial, a).tx, serial, b)
  {
    assert [a, b][..1] == [a];
    assert [a][..0] == [];
    assert ApplyOps(meta, tx, serial, []) == Staged(tx);
    assert ApplyOps(meta, tx, serial, [a]) == ApplyOp(meta, tx, serial, a);
  }

  lemma AddStages(meta: Meta, tx: Tx, serial: int, rr: Rr)
    requires Admits(tx.rows, rr, None)
    ensures ApplyOp(meta, tx, serial, AddRr(rr)) == Staged(Insert(tx, serial, [rr]))
    ensures forall e | e in tx.rows :: KeyOf(e.rr) != KeyOf(rr)
  {
    ValidateAddExact(tx.rows, rr, None);
  }

  lemma DeleteStages(meta: Meta, tx: Tx, serial: int, op: UpdateOp, row: Row)
    requires !op.AddRr? && Matched(op, tx.rows) == [row] && !Protected(meta, row.rr)
    ensures ApplyOp(meta, tx, serial, op) == Staged(Delete(tx, serial, [row]))
  {
  }

  /** Adding a fresh record and deleting it again in one message. */
  lemma AddThenDeleteStages(meta: Meta, s: State, rr: Rr)
    requires Admits(s.rows, rr, None) && !IsPrimaryNs(meta, rr)
    requires rr.priority.Some? <==> HasPriority(rr.rtype)
    ensures ApplyOps(meta, Begin(s), s.serial + 1, [AddRr(rr), DeleteRr(rr.owner, rr.rtype, rr.value, rr.priority)])
         == Staged(Delete(Insert(Begin(s), s.serial + 1, [rr]), s.serial + 1, [Row(s.nextId, rr)]))
  {
    var serial, add, del := s.serial + 1, AddRr(rr), DeleteRr(rr.owner, rr.rtype, rr.value, rr.priority);
    var t, row := Insert(Begin(s), serial, [rr]), Row(s.nextId, rr);
    assert ApplyOp(meta, Begin(s), serial, add) == Staged(t) by { AddStages(meta, Begin(s), serial, rr); }
    TwoOps(meta, Begin(s), serial, add, del);
    assert Matched(del, t.rows) == [row] by {
      AddStages(meta, Begin(s), serial, rr);
      assert Numbered([rr], s.nextId) == [row];
      OnlyMatch(s.rows, s.nextId, rr, del);
    }
    DeleteStages(meta, t, serial, del, row);
  }

  lemma AddNet(s: State, rr: Rr)
    requires TxOk(s, Begin(s)) && Admits(s.rows, rr, None)
    ensures var t := Insert(Begin(s), s.serial + 1, [rr]);
            && TxOk(s, t) && Rrs(t.rows) == Rrs(s.rows) + {rr}
            && t.rows == s.rows + [Row(s.nextId, rr)]
            && t.logged == [RrLog(s.serial + 1, Added, rr)]
    ensures KeyFree(Rrs(s.rows), KeyOf(rr))
  {
    assert Numbered([rr], s.nextId) == [Row(s.nextId, rr)];
    CoherentGrows(s.rows, Row(s.nextId, rr));
    FreshKeys(s.rows, [rr], s.nextId);
    InsertOk(s, Begin(s), [rr]);
    assert RrSet([rr]) == {rr};
    assert KeyFree(Rrs(s.rows), KeyOf(rr)) by { assert rr in [rr]; }
  }

  lemma DeleteNet(s: State, t: Tx, row: Row)
    requires TxOk(s, t) && row in t.rows
    ensures TxOk(s, Delete(t, s.serial + 1, [row]))
    ensures Rrs(Delete(t, s.serial + 1, [row]).rows) == Rrs(t.rows) - {row.rr}
    ensures Delete(t, s.serial + 1, [row]).logged == t.logged + [RrLog(s.serial + 1, Deleted, row.rr)]
  {
    assert RrsOf([row]) == [row.rr] && RrSet([row.rr]) == {row.rr};
    DeleteOk(s, t, [row]);
  }

  lemma AddThenDeleteNet(s: State, rr: Rr)
    requires TxOk(s, Begin(s)) && Admits(s.rows, rr, None)
    ensures var t := Delete(Insert(Begin(s), s.serial + 1, [rr]), s.serial + 1, [Row(s.nextId, rr)]);
            && TxOk(s, t) && Rrs(t.rows) == Rrs(s.rows)
            && t.logged == [RrLog(s.serial + 1, Added, rr), RrLog(s.serial + 1, Deleted, rr)]
            && KeyFree(Rrs(s.rows), KeyOf(rr))
  {
    AddNet(s, rr);
    var t := Insert(Begin(s), s.serial + 1, [rr]);
    assert Row(s.nextId, rr) in t.rows;
    DeleteNet(s, t, Row(s.nextId, rr));
  }

  /** The log rows of an add and its delete: the delete is streamed first and the add wins. */
  lemma AddThenDeleteRows(w: set<WireRr>, serial: int, rr: Rr)
    ensures var log := [RrLog(serial, Added, rr), RrLog(serial, Deleted, rr)];
            && !Settled(log)
            && Regrouped(w, Wires(log, Deleted), Wires(log, Added)) == w + {Wire(rr)}
  {
    var log := [RrLog(serial, Added, rr), RrLog(serial, Deleted, rr)];
    assert log[..1] == [RrLog(serial, Added, rr)] && log[..1][..0] == [];
    assert Wires([], Added) == [] && Wires([], Deleted) == [];
    assert Wires(log[..1], Added) == [Wire(rr)] && Wires(log[..1], Deleted) == [];
    assert Wires(log, Added) == [Wire(rr)] && Wires(log, Deleted) == [Wire(rr)];
    assert Verdict(log, Wire(rr)) == Some(Deleted);
  }

  function AddThenDelete(rr: Rr): seq<UpdateOp> { [AddRr(rr), DeleteRr(rr.owner, rr.rtype, rr.value, rr.priority)] }

  /** An update that adds a record and then deletes it leaves the zone's records as they were,
      yet its log rows, regrouped, end with the record. */
  lemma AddThenDeleteDiverges(s: State, rr: Rr) returns (tx: Tx)
    requires TxOk(s, Begin(s)) && Admits(s.rows, rr, None) && !IsPrimaryNs(s.meta, rr)
    requires rr.priority.Some? <==> HasPriority(rr.rtype)
    ensures Message(s, AddThenDelete(rr)) == Staged(tx) && TxOk(s, tx)
    ensures Rrs(tx.rows) == Rrs(s.rows) && tx.logged != [] && !Settled(tx.logged)
    ensures Regrouped(WireSet(Rrs(s.rows)), Wires(tx.logged, Deleted), Wires(tx.logged, Added))
         == WireSet(Rrs(s.rows)) + {Wire(rr)}
    ensures Wire(rr) !in WireSet(Rrs(s.rows))
  {
    tx := Delete(Insert(Begin(s), s.serial + 1, [rr]), s.serial + 1, [Row(s.nextId, rr)]);
    AddThenDeleteStages(s.meta, s, rr);
    AddThenDeleteNet(s, rr);
    AddThenDeleteRows(WireSet(Rrs(s.rows)), s.serial + 1, rr);
  }

  // ---- The loops ------------------------------------------------------------------------------

  /** The filter loop of `delete_matching`. */
  method MatchRows(op: UpdateOp, rows: seq<Row>) returns (matched: seq<Row>)
    requires !op.AddRr?
    ensures matched == Matched(op, rows)
  {
    matched := [];
    var owner := op.owner;
    for i := 0 to |rows|
      invariant matched == Matched(op, rows[..i])
    {
      assert rows[..i + 1][..i] == rows[..i];
      var rr := rows[i].rr;
      if rr.owner != owner { continue; }
      if op.DeleteRrset? && op.rtype.Some? && rr.rtype != op.rtype.value { continue; }
      if op.DeleteRr? && (rr.rtype != op.dtype || rr.value.canon != op.value.canon) { continue; }
      if op.DeleteRr? && op.priority.Some? && rr.priority != op.priority { continue; }
      if rr.rtype == SOA { continue; }
      matched := matched + [rows[i]];
    }
    assert rows[..|rows|] == rows;
  }

  /** `apply_op`; an add is judged against the rows at its own owner. */
  method ApplyOne(meta: Meta, tx: Tx, serial: int, op: UpdateOp) returns (r: Staged)
    ensures r == ApplyOp(meta, tx, serial, op)
  {
    if op.AddRr? {
      var near := SameOwner(tx.rows, op.rr.owner);
      if exists e | e in near :: KeyOf(e.rr) == KeyOf(op.rr) { return Staged(tx); }
      assert forall e | e in tx.rows && KeyOf(e.rr) == KeyOf(op.rr) :: e in near;
      ValidateNear(near, tx.rows, op.rr, None);
      var verdict := ValidateAdd(near, op.rr, None);
      return if verdict.Some? then Aborted(Refused(verdict.value)) else Staged(Insert(tx, serial, [op.rr]));
    }
    var matched := MatchRows(op, tx.rows);
    if matched == [] { return Staged(tx); }
    if exists r | r in matched :: Protected(meta, r.rr) { return Aborted(ProtectedRecord); }
    r := Staged(Delete(tx, serial, matched));
  }

  /** The loop of `apply`: the first refused operation aborts the message. */
  method ApplyList(meta: Meta, tx: Tx, serial: int, ops: seq<UpdateOp>) returns (r: Staged)
    ensures r == ApplyOps(meta, tx, serial, ops)
  {
    r := Staged(tx);
    for i := 0 to |ops|
      invariant r.Staged? && r == ApplyOps(meta, tx, serial, ops[..i])
    {
      assert ops[..i + 1][..i] == ops[..i];
      r := ApplyOne(meta, r.tx, serial, ops[i]);
      if r.Aborted? {
        AbortSticks(meta, tx, serial, ops, i + 1);
        return;
      }
    }
    assert ops[..|ops|] == ops;
  }

  method ApplyMessage(s: State, ops: seq<UpdateOp>) returns (r: Staged)
    ensures r == Message(s, ops)
  {
    r := ApplyList(s.meta, Begin(s), s.serial + 1, ops);
  }

  lemma {:induction false} AbortSticks(meta: Meta, tx: Tx, serial: int, ops: seq<UpdateOp>, n: nat)
    requires n <= |ops| && ApplyOps(meta, tx, serial, ops[..n]).Aborted?
    ensures ApplyOps(meta, tx, serial, ops) == ApplyOps(meta, tx, serial, ops[..n])
    decreases |ops|
  {
    if n == |ops| {
      assert ops[..n] == ops;
    } else {
      assert ops[..|ops| - 1][..n] == ops[..n];
      AbortSticks(meta, tx, serial, ops[..|ops| - 1], n);
    }
  }
}
