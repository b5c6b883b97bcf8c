/** What an RFC 2136 message does, identity by identity, read off the rows it meets and its
    operations before anything is applied: the records it leaves, and exactly when the log rows
    of its serial can be replayed by a secondary. */
module UpdateScan {
  import opened Records
  import opened Zone
  import opened Transaction
  import opened Replay
  import opened DynamicUpdate
  import ExternalDns

  /** The record of one identity: none, one the zone had, or one this message inserted. */
  datatype Held = Gone | Kept(rr: Rr) | Fresh(rr: Rr)

  function Start(rows: seq<Row>, k: Key): Held {
    if rows == [] then Gone
    else if KeyOf(rows[|rows| - 1].rr) == k then Kept(rows[|rows| - 1].rr)
    else Start(rows[..|rows| - 1], k)
  }

  function ScanOp(h: Held, k: Key, op: UpdateOp): Held {
    if op.AddRr? then if h.Gone? && KeyOf(op.rr) == k then Fresh(op.rr) else h
    else if !h.Gone? && Matches(op, h.rr) then Gone else h
  }

  function Scan(rows: seq<Row>, k: Key, ops: seq<UpdateOp>): Held {
    if ops == [] then Start(rows, k) else ScanOp(Scan(rows, k, ops[..|ops| - 1]), k, ops[|ops| - 1])
  }

  predicate HoldsWire(h: Held, w: WireRr) { !h.Gone? && Wire(h.rr) == w }

  /** The operation deletes a record this message inserted. */
  predicate Drops(h: Held, op: UpdateOp) { h.Fresh? && Matches(op, h.rr) }

  predicate DropsAt(rows: seq<Row>, ops: seq<UpdateOp>, i: nat, j: nat)
    requires i < |ops| && j < |ops|
  { ops[i].AddRr? && Drops(Scan(rows, KeyOf(ops[i].rr), ops[..j]), ops[j]) }

  /** Some operation deletes a record that an earlier operation of the message inserted. */
  predicate DeletesOwn(rows: seq<Row>, ops: seq<UpdateOp>) {
    exists i, j | 0 <= i < j < |ops| :: DropsAt(rows, ops, i, j)
  }

  /** Operation i finds nothing of its identity and inserts its record. */
  predicate Inserts(rows: seq<Row>, ops: seq<UpdateOp>, i: nat)
    requires i < |ops|
  { ops[i].AddRr? && Scan(rows, KeyOf(ops[i].rr), ops[..i]).Gone? }

  predicate LostAt(rows: seq<Row>, ops: seq<UpdateOp>, i: nat)
    requires i < |ops|
  { Inserts(rows, ops, i) && !HoldsWire(Scan(rows, KeyOf(ops[i].rr), ops), Wire(ops[i].rr)) }

  /** Some record the message inserts is not there at its end. */
  predicate LosesOwn(rows: seq<Row>, ops: seq<UpdateOp>) { exists i | 0 <= i < |ops| :: LostAt(rows, ops, i) }

  // ---- The scan follows the transaction ---------------------------------------------------------

  ghost predicate NoRow(rows: seq<Row>, k: Key) { forall r | r in rows :: KeyOf(r.rr) != k }

  ghost predicate NoLog(log: seq<LogRow>, k: Key) {
    forall i | 0 <= i < |log| && log[i].RrLog? :: KeyOf(log[i].rr) != k
  }

  /** What the scan of identity k says of the staged rows and log rows. */
  ghost predicate Tracks(tx: Tx, serial: int, k: Key, h: Held) {
    match h
    case Gone => NoRow(tx.rows, k)
    case Kept(rr) => rr in Rrs(tx.rows) && KeyOf(rr) == k && NoLog(tx.logged, k)
    case Fresh(rr) => rr in Rrs(tx.rows) && KeyOf(rr) == k && RrLog(serial, Added, rr) in tx.logged
  }

  lemma {:induction false} StartTracks(rows: seq<Row>, k: Key)
    ensures match Start(rows, k)
            case Gone => NoRow(rows, k)
            case Kept(rr) => rr in Rrs(rows) && KeyOf(rr) == k
            case Fresh(_) => false
  {
    if rows != [] {
      var n := |rows| - 1;
      StartTracks(rows[..n], k);
      assert rows == rows[..n] + [rows[n]];
    }
  }

  lemma SoundTx(s: State, tx: Tx)
    requires TxOk(s, tx)
    ensures ExternalDns.Sound(tx.rows) && UniqueIds(tx.rows)
  {
    assert Explained(s, tx);
    ExternalDns.GoodIsSound(tx.rows);
  }

  lemma TrackInsert(tx: Tx, serial: int, k: Key, h: Held, rr: Rr)
    requires Tracks(tx, serial, k, h) && NoRow(tx.rows, KeyOf(rr))
    ensures Tracks(Insert(tx, serial, [rr]), serial, k, ScanOp(h, k, AddRr(rr)))
  {
    var out := Insert(tx, serial, [rr]);
    NumberedRrs([rr], tx.nextId);
    assert Rrs(out.rows) == Rrs(tx.rows) + RrSet([rr]);
    assert Numbered([rr], tx.nextId) == [Row(tx.nextId, rr)];
    assert Logged(serial, Added, [rr]) == [RrLog(serial, Added, rr)];
    assert out.logged == tx.logged + [RrLog(serial, Added, rr)];
    assert RrLog(serial, Added, rr) in out.logged;
  }

  lemma NoLogAppend(a: seq<LogRow>, b: seq<LogRow>, k: Key)
    requires NoLog(a, k) && NoLog(b, k)
    ensures NoLog(a + b, k)
  {
  }

  lemma NoMatchOfKey(op: UpdateOp, rows: seq<Row>, k: Key, serial: int)
    requires forall r | r in rows && KeyOf(r.rr) == k :: !Matches(op, r.rr)
    ensures NoLog(Logged(serial, Deleted, RrsOf(Matched(op, rows))), k)
  {
    var m := Matched(op, rows);
    forall i | 0 <= i < |m| ensures KeyOf(RrsOf(m)[i]) != k { assert m[i] in m; }
  }

  lemma TrackDelete(tx: Tx, serial: int, k: Key, h: Held, op: UpdateOp)
    requires Tracks(tx, serial, k, h) && ExternalDns.Sound(tx.rows) && !op.AddRr?
    ensures Tracks(Delete(tx, serial, Matched(op, tx.rows)), serial, k, ScanOp(h, k, op))
  {
    var m := Matched(op, tx.rows);
    var out := Delete(tx, serial, m);
    forall r | r in tx.rows ensures r.id in Ids(m) <==> r in m {
      if r.id in Ids(m) { var d :| d in m && d.id == r.id; }
    }
    assert forall r :: r in out.rows <==> r in tx.rows && !Matches(op, r.rr);
    if !h.Gone? {
      var row :| row in tx.rows && row.rr == h.rr;
      assert forall r | r in tx.rows && KeyOf(r.rr) == k :: r == row;
      if !Matches(op, h.rr) {
        assert row in out.rows && h.rr in Rrs(out.rows);
        NoMatchOfKey(op, tx.rows, k, serial);
        if h.Kept? { NoLogAppend(tx.logged, Logged(serial, Deleted, RrsOf(m)), k); }
      }
    }
  }

  lemma NothingMatches(tx: Tx, serial: int, k: Key, h: Held, op: UpdateOp)
    requires Tracks(tx, serial, k, h) && !op.AddRr? && Matched(op, tx.rows) == []
    ensures ScanOp(h, k, op) == h
  {
    if !h.Gone? {
      var row :| row in tx.rows && row.rr == h.rr;
      assert Matches(op, h.rr) ==> row in Matched(op, tx.rows);
    }
  }

  lemma AlreadyThere(tx: Tx, serial: int, k: Key, h: Held, op: UpdateOp)
    requires Tracks(tx, serial, k, h) && op.AddRr? && exists e | e in tx.rows :: KeyOf(e.rr) == KeyOf(op.rr)
    ensures ScanOp(h, k, op) == h
  {
    var e :| e in tx.rows && KeyOf(e.rr) == KeyOf(op.rr);
    assert h.Gone? ==> KeyOf(e.rr) != k;
  }

  lemma TrackOp(s: State, meta: Meta, tx: Tx, op: UpdateOp, k: Key, h: Held)
    requires TxOk(s, tx) && Tracks(tx, s.serial + 1, k, h) && ApplyOp(meta, tx, s.serial + 1, op).Staged?
    ensures Tracks(ApplyOp(meta, tx, s.serial + 1, op).tx, s.serial + 1, k, ScanOp(h, k, op))
  {
    if op.AddRr? {
      if exists e | e in tx.rows :: KeyOf(e.rr) == KeyOf(op.rr) {
        AlreadyThere(tx, s.serial + 1, k, h, op);
      } else {
        TrackInsert(tx, s.serial + 1, k, h, op.rr);
      }
    } else if Matched(op, tx.rows) == [] {
      NothingMatches(tx, s.serial + 1, k, h, op);
    } else {
      SoundTx(s, tx);
      TrackDelete(tx, s.serial + 1, k, h, op);
    }
  }

  /** The transaction staged by the first n operations. */
  lemma PrefixStaged(s: State, ops: seq<UpdateOp>)
    requires ValidState(s) && Message(s, ops).Staged?
    ensures TxOk(s, Message(s, ops).tx)
    ensures ops != [] ==>
              && Message(s, ops[..|ops| - 1]).Staged?
              && Message(s, ops) == ApplyOp(s.meta, Message(s, ops[..|ops| - 1]).tx, s.serial + 1, ops[|ops| - 1])
  {
    BeginOk(s);
    assert ServesPrimary(s.meta, Rrs(s.rows)) by { assert WellFormed(s); }
    ApplyOpsOk(s, s.meta, Begin(s), ops);
  }

  lemma {:induction false} ScanTracks(s: State, ops: seq<UpdateOp>, k: Key)
    requires ValidState(s) && Message(s, ops).Staged?
    ensures Tracks(Message(s, ops).tx, s.serial + 1, k, Scan(s.rows, k, ops))
  {
    if ops == [] {
      StartTracks(s.rows, k);
    } else {
      var before := ops[..|ops| - 1];
      PrefixStaged(s, ops);
      PrefixStaged(s, before);
      ScanTracks(s, before, k);
      TrackOp(s, s.meta, Message(s, before).tx, ops[|ops| - 1], k, Scan(s.rows, k, before));
    }
  }

  /** What a message leaves: for every identity the record the scan ends with, and no other. */
  lemma MessageLeaves(s: State, ops: seq<UpdateOp>, rr: Rr)
    requires ValidState(s) && Message(s, ops).Staged?
    ensures rr in Rrs(Message(s, ops).tx.rows) <==>
            var h := Scan(s.rows, KeyOf(rr), ops); !h.Gone? && h.rr == rr
  {
    var tx, h := Message(s, ops).tx, Scan(s.rows, KeyOf(rr), ops);
    ScanTracks(s, ops, KeyOf(rr));
    PrefixStaged(s, ops);
    SoundTx(s, tx);
    if rr in Rrs(tx.rows) {
      var r :| r in tx.rows && r.rr == rr;
      if !h.Gone? { var q :| q in tx.rows && q.rr == h.rr; }
    }
  }

  /** The identity of the record a single-record delete names. */
  function NamedBy(op: UpdateOp): Key
    requires op.DeleteRr?
  { Key(op.owner, op.dtype, op.value.canon, Pref(op.dtype, op.priority)) }

  /** The record stays: it is another one, or an MX or SRV record with an empty priority column. */
  predicate Survives(op: UpdateOp, rr: Rr)
    requires op.DeleteRr?
  { KeyOf(rr) == NamedBy(op) ==> HasPriority(op.dtype) && rr.priority == None }

  /** A single-record delete at the end of a message takes away the record of its identity and
      nothing else, except that it leaves an MX or SRV record whose priority column is empty. */
  lemma DeleteExact(s: State, ops: seq<UpdateOp>, op: UpdateOp, before: Tx, after: Tx)
    requires ValidState(s) && Message(s, ops) == Staged(before) && Message(s, ops + [op]) == Staged(after)
    requires op.DeleteRr? && (op.priority.Some? <==> HasPriority(op.dtype))
    ensures forall rr :: rr in Rrs(after.rows) <==> rr in Rrs(before.rows) && Survives(op, rr)
  {
    PrefixStaged(s, ops);
    forall rr ensures rr in Rrs(after.rows) <==> rr in Rrs(before.rows) && Survives(op, rr) {
      MessageLeaves(s, ops, rr);
      MessageLeaves(s, ops + [op], rr);
      ScanLast(s.rows, KeyOf(rr), ops, op);
      if rr in Rrs(before.rows) { DeleteSound(s, before, op, rr); }
    }
  }

  lemma ScanLast(rows: seq<Row>, k: Key, ops: seq<UpdateOp>, op: UpdateOp)
    ensures Scan(rows, k, ops + [op]) == ScanOp(Scan(rows, k, ops), k, op)
  {
    assert (ops + [op])[..|ops|] == ops;
  }

  lemma DeleteSound(s: State, tx: Tx, op: UpdateOp, rr: Rr)
    requires TxOk(s, tx) && rr in Rrs(tx.rows) && op.DeleteRr? && (op.priority.Some? <==> HasPriority(op.dtype))
    ensures Matches(op, rr) <==> !Survives(op, rr)
  {
    KeptSound(s, tx, rr);
    DeleteRrExact(op, rr);
  }

  lemma KeptSound(s: State, tx: Tx, rr: Rr)
    requires TxOk(s, tx) && rr in Rrs(tx.rows)
    ensures RrOk(rr)
  {
    assert Explained(s, tx) && Consistent(tx.rows);
  }

  // ---- Exactly when the update replays strictly -----------------------------------------------------

  lemma {:induction false} FreshFrom(rows: seq<Row>, k: Key, ops: seq<UpdateOp>)
    ensures Scan(rows, k, ops).Fresh? ==>
              KeyOf(Scan(rows, k, ops).rr) == k && exists i | 0 <= i < |ops| :: ops[i] == AddRr(Scan(rows, k, ops).rr)
  {
    if ops == [] {
      StartTracks(rows, k);
    } else {
      var n := |ops| - 1;
      FreshFrom(rows, k, ops[..n]);
      if Scan(rows, k, ops[..n]).Fresh? && Scan(rows, k, ops).Fresh? {
        var i :| 0 <= i < n && ops[..n][i] == AddRr(Scan(rows, k, ops[..n]).rr);
        assert ops[i] == AddRr(Scan(rows, k, ops).rr);
      }
    }
  }

  /** The operation deletes a record that the ones before it inserted. */
  ghost predicate DropsOwn(rows: seq<Row>, before: seq<UpdateOp>, op: UpdateOp) {
    exists k: Key :: Drops(Scan(rows, k, before), op)
  }

  lemma DeletesOwnGrows(rows: seq<Row>, ops: seq<UpdateOp>)
    requires ops != []
    ensures var n := |ops| - 1;
            DeletesOwn(rows, ops) <==> DeletesOwn(rows, ops[..n]) || DropsOwn(rows, ops[..n], ops[n])
  {
    var n := |ops| - 1;
    assert forall i, j | 0 <= i < j < n :: DropsAt(rows, ops, i, j) == DropsAt(rows, ops[..n], i, j) by {
      assert forall j | 0 <= j < n :: ops[..n][..j] == ops[..j];
    }
    if DeletesOwn(rows, ops) && !DeletesOwn(rows, ops[..n]) {
      var i, j :| 0 <= i < j < |ops| && DropsAt(rows, ops, i, j);
      assert j == n && Drops(Scan(rows, KeyOf(ops[i].rr), ops[..n]), ops[n]);
    }
    if DropsOwn(rows, ops[..n], ops[n]) {
      var k: Key :| Drops(Scan(rows, k, ops[..n]), ops[n]);
      FreshFrom(rows, k, ops[..n]);
      var i :| 0 <= i < n && ops[..n][i] == AddRr(Scan(rows, k, ops[..n]).rr);
      assert DropsAt(rows, ops, i, n);
    }
    if DeletesOwn(rows, ops[..n]) {
      var i, j :| 0 <= i < j < n && DropsAt(rows, ops[..n], i, j);
      assert DropsAt(rows, ops, i, j);
    }
  }

  /** A row the log adds and a later row deletes. */
  ghost predicate Clash(a: LogRow, b: LogRow) {
    a.RrLog? && b.RrLog? && a.op == Added && b.op == Deleted && Wire(a.rr) == Wire(b.rr)
  }

  lemma LateDeleteGrows(a: seq<LogRow>, b: seq<LogRow>)
    requires (forall e | e in b :: e.op == Added) || (forall e | e in b :: e.op == Deleted)
    ensures NoLateDelete(a + b) <==> NoLateDelete(a) && forall x, y | x in a && y in b :: !Clash(x, y)
  {
    if NoLateDelete(a + b) {
      forall i, j | 0 <= i < j < |a| ensures !Clash(a[i], a[j]) {
        assert (a + b)[i] == a[i] && (a + b)[j] == a[j];
      }
      forall x, y | x in a && y in b ensures !Clash(x, y) {
        var i :| 0 <= i < |a| && a[i] == x;
        var j :| 0 <= j < |b| && b[j] == y;
        assert (a + b)[i] == x && (a + b)[|a| + j] == y;
      }
    }
    if NoLateDelete(a) && forall x, y | x in a && y in b :: !Clash(x, y) {
      forall i, j | 0 <= i < j < |a + b| ensures !Clash((a + b)[i], (a + b)[j]) {
        if j >= |a| {
          assert (a + b)[j] in b;
          if i < |a| { assert (a + b)[i] in a; } else { assert (a + b)[i] in b; }
        } else {
          assert (a + b)[i] == a[i] && (a + b)[j] == a[j];
        }
      }
    }
  }

  /** The log rows an operation appends. */
  function OpRows(tx: Tx, serial: int, op: UpdateOp): seq<LogRow> {
    if !op.AddRr? then Logged(serial, Deleted, RrsOf(Matched(op, tx.rows)))
    else if exists e | e in tx.rows :: KeyOf(e.rr) == KeyOf(op.rr) then []
    else [RrLog(serial, Added, op.rr)]
  }

  lemma OpAppends(meta: Meta, tx: Tx, serial: int, op: UpdateOp)
    requires ApplyOp(meta, tx, serial, op).Staged?
    ensures ApplyOp(meta, tx, serial, op).tx.logged == tx.logged + OpRows(tx, serial, op)
  {
    if op.AddRr? { assert Logged(serial, Added, [op.rr]) == [RrLog(serial, Added, op.rr)]; }
  }

  /** A deleted row clashes with an earlier one exactly when this message inserted its record. */
  lemma DeleteClashes(s: State, before: seq<UpdateOp>, tx: Tx, r: Row)
    requires ValidState(s) && Message(s, before) == Staged(tx) && r in tx.rows
    ensures (exists x | x in tx.logged :: Clash(x, RrLog(s.serial + 1, Deleted, r.rr)))
            <==> Scan(s.rows, KeyOf(r.rr), before).Fresh?
    ensures var h := Scan(s.rows, KeyOf(r.rr), before); !h.Gone? && h.rr == r.rr
  {
    var k := KeyOf(r.rr);
    var h, e := Scan(s.rows, k, before), RrLog(s.serial + 1, Deleted, r.rr);
    ScanTracks(s, before, k);
    assert r.rr in Rrs(tx.rows);
    MessageLeaves(s, before, r.rr);
    if h.Fresh? { assert Clash(RrLog(s.serial + 1, Added, h.rr), e); }
    if h.Kept? { assert forall x | x in tx.logged && x.RrLog? :: KeyOf(x.rr) != k; }
  }

  lemma ClashDrops(s: State, before: seq<UpdateOp>, op: UpdateOp, tx: Tx, x: LogRow, y: LogRow)
    requires ValidState(s) && Message(s, before) == Staged(tx) && x in tx.logged && Clash(x, y)
    requires !op.AddRr? && y in OpRows(tx, s.serial + 1, op)
    ensures Drops(Scan(s.rows, KeyOf(y.rr), before), op)
  {
    var m := Matched(op, tx.rows);
    var i :| 0 <= i < |m| && y == RrLog(s.serial + 1, Deleted, RrsOf(m)[i]);
    assert m[i] in m;
    DeleteClashes(s, before, tx, m[i]);
  }

  lemma DropClashes(s: State, before: seq<UpdateOp>, op: UpdateOp, tx: Tx, k: Key) returns (x: LogRow, y: LogRow)
    requires ValidState(s) && Message(s, before) == Staged(tx) && Drops(Scan(s.rows, k, before), op)
    ensures !op.AddRr? && x in tx.logged && y in OpRows(tx, s.serial + 1, op) && Clash(x, y)
  {
    var rr, m := Scan(s.rows, k, before).rr, Matched(op, tx.rows);
    ScanTracks(s, before, k);
    var r :| r in tx.rows && r.rr == rr;
    assert r in m;
    var i :| 0 <= i < |m| && m[i] == r;
    x, y := RrLog(s.serial + 1, Added, rr), RrLog(s.serial + 1, Deleted, rr);
    assert Logged(s.serial + 1, Deleted, RrsOf(m))[i] == y;
  }

  /** The transaction of the earlier operations, and what the last one appends to its log. */
  lemma LastOp(s: State, ops: seq<UpdateOp>) returns (tx: Tx)
    requires ValidState(s) && ops != [] && Message(s, ops).Staged?
    ensures Message(s, ops[..|ops| - 1]) == Staged(tx)
    ensures Message(s, ops).tx.logged == tx.logged + OpRows(tx, s.serial + 1, ops[|ops| - 1])
  {
    PrefixStaged(s, ops);
    tx := Message(s, ops[..|ops| - 1]).tx;
    OpAppends(s.meta, tx, s.serial + 1, ops[|ops| - 1]);
  }

  lemma LastClashes(s: State, before: seq<UpdateOp>, op: UpdateOp, tx: Tx)
    requires ValidState(s) && Message(s, before) == Staged(tx)
    ensures NoLateDelete(tx.logged + OpRows(tx, s.serial + 1, op))
            <==> NoLateDelete(tx.logged) && !DropsOwn(s.rows, before, op)
  {
    var b := OpRows(tx, s.serial + 1, op);
    LateDeleteGrows(tx.logged, b);
    if x, y :| x in tx.logged && y in b && Clash(x, y) {
      ClashDrops(s, before, op, tx, x, y);
    } else if DropsOwn(s.rows, before, op) {
      var k: Key :| Drops(Scan(s.rows, k, before), op);
      var x, y := DropClashes(s, before, op, tx, k);
    }
  }

  lemma {:induction false} LateDeleteScan(s: State, ops: seq<UpdateOp>, log: seq<LogRow>)
    requires ValidState(s) && Message(s, ops).Staged? && log == Message(s, ops).tx.logged
    ensures NoLateDelete(log) <==> !DeletesOwn(s.rows, ops)
  {
    if ops != [] {
      var n := |ops| - 1;
      var tx := LastOp(s, ops);
      LateDeleteScan(s, ops[..n], tx.logged);
      DeletesOwnGrows(s.rows, ops);
      LastClashes(s, ops[..n], ops[n], tx);
    }
  }

  /** An update's serial can be replayed by a secondary that insists every delete hits and every
      add is fresh, exactly when no operation deletes a record this message inserted. */
  lemma UpdateStrictExact(s: State, ops: seq<UpdateOp>, tx: Tx)
    requires ValidState(s) && Message(s, ops) == Staged(tx)
    ensures Strict(WireSet(Rrs(s.rows)), Wires(tx.logged, Deleted), Wires(tx.logged, Added))
            <==> !DeletesOwn(s.rows, ops)
    ensures NoLateDelete(tx.logged) <==> !DeletesOwn(s.rows, ops)
  {
    LateDeleteScan(s, ops, tx.logged);
    PrefixStaged(s, ops);
    assert Explained(s, tx);
    StrictExact(Rrs(s.rows), tx.logged);
  }

  // ---- Exactly when the update replays at all ----------------------------------------------------------

  ghost predicate AllIn(q: seq<WireRr>, w: set<WireRr>) { forall x | x in q :: x in w }

  /** A log is settled exactly when every record it adds is there at its end. */
  lemma SettledExact(s: set<Rr>, log: seq<LogRow>)
    requires KeyUnique(s) && Legal(s, log)
    ensures Settled(log) <==> AllIn(Wires(log, Added), WireSet(Play(s, log)))
  {
    if Settled(log) {
      forall x | x in Wires(log, Added) ensures x in WireSet(Play(s, log)) { SettledAtEnd(s, log, x); }
    } else {
      var x :| x in Wires(log, Added) && Verdict(log, x) != Some(Added);
      SettledAtEnd(s, log, x);
    }
  }

  lemma SettledAtEnd(s: set<Rr>, log: seq<LogRow>, x: WireRr)
    requires KeyUnique(s) && Legal(s, log) && x in Wires(log, Added)
    ensures Verdict(log, x) == Some(Added) <==> x in WireSet(Play(s, log))
  {
    PlayVerdict(s, log, x);
    VerdictTouches(log, x);
  }

  ghost predicate InsertsWire(rows: seq<Row>, ops: seq<UpdateOp>, x: WireRr) {
    exists i | 0 <= i < |ops| :: Inserts(rows, ops, i) && Wire(ops[i].rr) == x
  }

  lemma InsertsGrows(rows: seq<Row>, ops: seq<UpdateOp>, x: WireRr)
    requires ops != []
    ensures var n := |ops| - 1;
            InsertsWire(rows, ops, x) <==>
            InsertsWire(rows, ops[..n], x) || (Inserts(rows, ops, n) && Wire(ops[n].rr) == x)
  {
    var n := |ops| - 1;
    assert forall i | 0 <= i < n :: ops[..n][..i] == ops[..i];
    if InsertsWire(rows, ops[..n], x) {
      var i :| 0 <= i < n && Inserts(rows, ops[..n], i) && Wire(ops[..n][i].rr) == x;
      assert Inserts(rows, ops, i);
    }
    if InsertsWire(rows, ops, x) {
      var i :| 0 <= i < |ops| && Inserts(rows, ops, i) && Wire(ops[i].rr) == x;
      if i < n { assert Inserts(rows, ops[..n], i); }
    }
  }

  /** The rows a message adds to the log are the records it inserts. */
  lemma {:induction false} AddedRows(s: State, ops: seq<UpdateOp>, log: seq<LogRow>, x: WireRr)
    requires ValidState(s) && Message(s, ops).Staged? && log == Message(s, ops).tx.logged
    ensures Mentions(log, Added, x) <==> InsertsWire(s.rows, ops, x)
  {
    if ops != [] {
      var tx := LastOp(s, ops);
      AddedRows(s, ops[..|ops| - 1], tx.logged, x);
      LastAdds(s, ops, tx, x);
    }
  }

  lemma LastAdds(s: State, ops: seq<UpdateOp>, tx: Tx, x: WireRr)
    requires ValidState(s) && ops != [] && Message(s, ops[..|ops| - 1]) == Staged(tx)
    requires Mentions(tx.logged, Added, x) <==> InsertsWire(s.rows, ops[..|ops| - 1], x)
    ensures Mentions(tx.logged + OpRows(tx, s.serial + 1, ops[|ops| - 1]), Added, x) <==> InsertsWire(s.rows, ops, x)
  {
    var n := |ops| - 1;
    var b := OpRows(tx, s.serial + 1, ops[n]);
    InsertsGrows(s.rows, ops, x);
    MentionsAppend(tx.logged, b, Added, x);
    if ops[n].AddRr? {
      GoneMeansNoRow(s, ops[..n], tx, KeyOf(ops[n].rr));
      if b != [] && Wire(ops[n].rr) == x { assert Touches(b[0], Added, x); }
    }
  }

  lemma GoneMeansNoRow(s: State, ops: seq<UpdateOp>, tx: Tx, k: Key)
    requires ValidState(s) && Message(s, ops) == Staged(tx)
    ensures Scan(s.rows, k, ops).Gone? <==> NoRow(tx.rows, k)
  {
    ScanTracks(s, ops, k);
    var h := Scan(s.rows, k, ops);
    if !h.Gone? {
      var r :| r in tx.rows && r.rr == h.rr;
    }
  }

  lemma MentionsAppend(a: seq<LogRow>, b: seq<LogRow>, op: LogOp, x: WireRr)
    ensures Mentions(a + b, op, x) <==> Mentions(a, op, x) || Mentions(b, op, x)
  {
    if Mentions(a, op, x) {
      var i :| 0 <= i < |a| && Touches(a[i], op, x);
      assert (a + b)[i] == a[i];
    }
    if Mentions(b, op, x) {
      var i :| 0 <= i < |b| && Touches(b[i], op, x);
      assert (a + b)[|a| + i] == b[i];
    }
    if Mentions(a + b, op, x) {
      var i :| 0 <= i < |a + b| && Touches((a + b)[i], op, x);
      assert if i < |a| then (a + b)[i] == a[i] else (a + b)[i] == b[i - |a|];
    }
  }

  lemma EndsHeld(s: State, ops: seq<UpdateOp>, tx: Tx, x: WireRr)
    requires ValidState(s) && Message(s, ops) == Staged(tx)
    ensures x in WireSet(Rrs(tx.rows)) <==> HoldsWire(Scan(s.rows, x.key, ops), x)
  {
    var h := Scan(s.rows, x.key, ops);
    if x in WireSet(Rrs(tx.rows)) {
      var rr :| rr in Rrs(tx.rows) && Wire(rr) == x;
      MessageLeaves(s, ops, rr);
    }
    if HoldsWire(h, x) { MessageLeaves(s, ops, h.rr); }
  }

  /** An update's serial, regrouped as deletes then adds, gives the committed records exactly when
      no record this message inserted is missing at its end. */
  lemma UpdateReplayExact(s: State, ops: seq<UpdateOp>, tx: Tx)
    requires ValidState(s) && Message(s, ops) == Staged(tx)
    ensures Regrouped(WireSet(Rrs(s.rows)), Wires(tx.logged, Deleted), Wires(tx.logged, Added)) == WireSet(Rrs(tx.rows))
            <==> !LosesOwn(s.rows, ops)
    ensures Settled(tx.logged) <==> !LosesOwn(s.rows, ops)
  {
    PrefixStaged(s, ops);
    assert Explained(s, tx);
    SettledExact(Rrs(s.rows), tx.logged);
    RegroupExact(Rrs(s.rows), tx.logged);
    forall x ensures x in Wires(tx.logged, Added) <==> InsertsWire(s.rows, ops, x) {
      WiresMention(tx.logged, Added, x);
      AddedRows(s, ops, tx.logged, x);
    }
    forall x ensures x in WireSet(Rrs(tx.rows)) <==> HoldsWire(Scan(s.rows, x.key, ops), x) { EndsHeld(s, ops, tx, x); }
    if LosesOwn(s.rows, ops) {
      var i :| 0 <= i < |ops| && LostAt(s.rows, ops, i);
      assert InsertsWire(s.rows, ops, Wire(ops[i].rr));
    } else {
      forall x | x in Wires(tx.logged, Added) ensures x in WireSet(Rrs(tx.rows)) {
        var i :| 0 <= i < |ops| && Inserts(s.rows, ops, i) && Wire(ops[i].rr) == x;
        assert !LostAt(s.rows, ops, i);
      }
    }
  }

  /** Strictness is the stronger of the two. */
  lemma StrictMessageReplays(s: State, ops: seq<UpdateOp>)
    requires ValidState(s) && Message(s, ops).Staged?
    ensures LosesOwn(s.rows, ops) ==> DeletesOwn(s.rows, ops)
  {
    UpdateStrictExact(s, ops, Message(s, ops).tx);
    UpdateReplayExact(s, ops, Message(s, ops).tx);
    if !DeletesOwn(s.rows, ops) { NoLateDeleteSettles(Message(s, ops).tx.logged); }
  }

  /** What a message leaves, as one statement over the whole record set. */
  ghost predicate Leaves(rows: seq<Row>, ops: seq<UpdateOp>, out: set<Rr>) {
    forall rr :: rr in out <==> var h := Scan(rows, KeyOf(rr), ops); !h.Gone? && h.rr == rr
  }

  lemma MessageResult(s: State, ops: seq<UpdateOp>, tx: Tx)
    requires ValidState(s) && Message(s, ops) == Staged(tx)
    ensures Leaves(s.rows, ops, Rrs(tx.rows))
  {
    forall rr ensures rr in Rrs(tx.rows) <==> var h := Scan(s.rows, KeyOf(rr), ops); !h.Gone? && h.rr == rr {
      MessageLeaves(s, ops, rr);
    }
  }

  // ---- A check of the message alone -------------------------------------------------------------------

  /** The delete may touch a record of this identity. */
  predicate Reaches(op: UpdateOp, k: Key) {
    match op
    case AddRr(_) => false
    case DeleteRrset(o, t) => k.owner == o && (t == None || t == Some(k.rtype))
    case DeleteRr(o, t, v, p) =>
      k.owner == o && k.rtype == t && k.canon == v.canon && (p == None || k.pref == Pref(t, p))
  }

  /** No operation may delete a record of an identity that an earlier one of the message adds. */
  ghost predicate AddsStay(ops: seq<UpdateOp>) {
    forall i, j | 0 <= i < j < |ops| && ops[i].AddRr? :: !Reaches(ops[j], KeyOf(ops[i].rr))
  }

  /** A message none of whose deletes reaches back to its own adds replays, whatever the rows. */
  lemma AddsStayReplays(rows: seq<Row>, ops: seq<UpdateOp>)
    requires AddsStay(ops)
    ensures !DeletesOwn(rows, ops)
  {
    forall i, j | 0 <= i < j < |ops| ensures !DropsAt(rows, ops, i, j) {
      if ops[i].AddRr? {
        var k := KeyOf(ops[i].rr);
        FreshFrom(rows, k, ops[..j]);
        assert !Reaches(ops[j], k);
      }
    }
  }
}
