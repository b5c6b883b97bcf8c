/** The incremental transfer (server/ixfr.rs, server/delta.rs): choosing the reply,
    streaming it, reading it back as section 4 of RFC 1995 prescribes, and what a
    secondary holds after applying it. */
module Ixfr {
  import opened Records
  import opened Zone
  import opened Replay

  type u32 = x: int | 0 <= x < 0x1_0000_0000

  datatype Answer = SoaAnswer(serial: int, snap: Snapshot) | RrAnswer(x: WireRr)

  /** One step of an incremental reply. */
  datatype Delta = Delta(oldSerial: int, oldSnap: Snapshot, dels: seq<WireRr>,
                         newSerial: int, newSnap: Snapshot, adds: seq<WireRr>)

  /** What a requester understands from a reply. */
  datatype Transfer =
    | UpToDate(serial: int)
    | Full(serial: int, records: seq<WireRr>)
    | Incremental(serial: int, deltas: seq<Delta>)

  datatype Outcome = Failed | Fallback | Single(answers: seq<Answer>) | Stepwise(answers: seq<Answer>)

  /** `serial as i32` in the range queries. */
  function AsI32(x: u32): int { if x <= MAX_SERIAL then x else x - 0x1_0000_0000 }

  /** `serial_to_u32`. */
  function ToU32(serial: int): Option<u32>
    requires -MAX_SERIAL - 1 <= serial <= MAX_SERIAL
  { if serial < 0 then None else Some(serial) }

  // ---- Serials present in a change list -------------------------------------

  ghost predicate Increasing(q: seq<int>) { forall i, j | 0 <= i < j < |q| :: q[i] < q[j] }

  function InsertSerial(q: seq<int>, s: int): seq<int> {
    if q == [] then [s]
    else if s < q[0] then [s] + q
    else if s == q[0] then q
    else [q[0]] + InsertSerial(q[1..], s)
  }

  /** `sort` and `dedup` of the serials of a change list. */
  function Serials(changes: seq<LogRow>): seq<int> {
    if changes == [] then []
    else InsertSerial(Serials(changes[..|changes| - 1]), changes[|changes| - 1].serial)
  }

  lemma IncreasingCons(s: int, q: seq<int>)
    requires Increasing(q) && forall x | x in q :: s < x
    ensures Increasing([s] + q)
  {
    assert forall i | 0 < i < |[s] + q| :: ([s] + q)[i] == q[i - 1] && q[i - 1] in q;
  }

  lemma {:induction false} InsertSerialSpec(q: seq<int>, s: int)
    requires Increasing(q)
    ensures Increasing(InsertSerial(q, s))
    ensures forall x :: x in InsertSerial(q, s) <==> x in q || x == s
  {
    if q == [] {
    } else if s < q[0] {
      IncreasingCons(s, q);
    } else if s > q[0] {
      InsertSerialSpec(q[1..], s);
      assert forall x :: x in q <==> x == q[0] || x in q[1..];
      IncreasingCons(q[0], InsertSerial(q[1..], s));
    }
  }

  /** The serials of a change list, each once, in order. */
  lemma {:induction false} SerialsSpec(changes: seq<LogRow>)
    ensures Increasing(Serials(changes))
    ensures forall e | e in changes :: e.serial in Serials(changes)
    ensures forall s | s in Serials(changes) :: exists e | e in changes :: e.serial == s
  {
    if changes != [] {
      var n := |changes| - 1;
      SerialsSpec(changes[..n]);
      InsertSerialSpec(Serials(changes[..n]), changes[n].serial);
      assert changes == changes[..n] + [changes[n]];
    }
  }

  // ---- The stream -----------------------------------------------------------

  function RrAnswers(xs: seq<WireRr>): (r: seq<Answer>)
    ensures |r| == |xs| && forall i | 0 <= i < |xs| :: r[i] == RrAnswer(xs[i])
  { seq(|xs|, i requires 0 <= i < |xs| => RrAnswer(xs[i])) }

  function DeltaAnswers(d: Delta): seq<Answer> {
    [SoaAnswer(d.oldSerial, d.oldSnap)] + RrAnswers(d.dels) + [SoaAnswer(d.newSerial, d.newSnap)] + RrAnswers(d.adds)
  }

  function Body(ds: seq<Delta>): seq<Answer> {
    if ds == [] then [] else DeltaAnswers(ds[0]) + Body(ds[1..])
  }

  function Stream(serial: int, snap: Snapshot, ds: seq<Delta>): seq<Answer> {
    [SoaAnswer(serial, snap)] + Body(ds) + [SoaAnswer(serial, snap)]
  }

  function FullStream(serial: int, snap: Snapshot, records: seq<WireRr>): seq<Answer> {
    [SoaAnswer(serial, snap)] + RrAnswers(records) + [SoaAnswer(serial, snap)]
  }

  /** The rows of one serial, in log order. */
  function RowsOf(changes: seq<LogRow>, serial: int): seq<LogRow> { Between(changes, serial - 1, serial) }

  function OldSerial(client: int, serials: seq<int>, i: nat): int
    requires i < |serials|
  { if i == 0 then client else serials[i - 1] }

  /** Step i has both its old and its new SOA snapshot. */
  predicate Linked(client: int, serials: seq<int>, snaps: map<int, Snapshot>, i: nat)
    requires i < |serials|
  { OldSerial(client, serials, i) in snaps && serials[i] in snaps }

  predicate Chained(client: int, serials: seq<int>, snaps: map<int, Snapshot>) {
    forall i | 0 <= i < |serials| :: Linked(client, serials, snaps, i)
  }

  function DeltaAt(client: int, serials: seq<int>, i: nat, changes: seq<LogRow>, snaps: map<int, Snapshot>): Delta
    requires i < |serials| && Chained(client, serials, snaps)
  {
    var o, n := OldSerial(client, serials, i), serials[i];
    assert Linked(client, serials, snaps, i);
    Delta(o, snaps[o], Wires(RowsOf(changes, n), Deleted), n, snaps[n], Wires(RowsOf(changes, n), Added))
  }

  function Deltas(client: int, serials: seq<int>, changes: seq<LogRow>, snaps: map<int, Snapshot>): (ds: seq<Delta>)
    requires Chained(client, serials, snaps)
    ensures |ds| == |serials|
    ensures forall i | 0 <= i < |ds| :: ds[i] == DeltaAt(client, serials, i, changes, snaps)
  { seq(|serials|, i requires 0 <= i < |serials| => DeltaAt(client, serials, i, changes, snaps)) }

  /** Snapshots with serial in `[from, to]`. */
  function InRange(snaps: map<int, Snapshot>, from: int, to: int): map<int, Snapshot> {
    map s | s in snaps && from <= s <= to :: snaps[s]
  }

  /** `handle_ixfr` on what its three reads return: the zone row, the log and the snapshots. */
  function Decide(zoneSerial: int, log: seq<LogRow>, snaps: map<int, Snapshot>, client: Option<u32>): Outcome
    requires -MAX_SERIAL - 1 <= zoneSerial <= MAX_SERIAL
  {
    if ToU32(zoneSerial) == None then Failed
    else if client == None then Fallback
    else
      var current, c := ToU32(zoneSerial).value, client.value;
      if c == current then
        if AsI32(current) in snaps then Single([SoaAnswer(current, snaps[AsI32(current)])]) else Fallback
      else if c > current then Fallback
      else
        var changes := Between(log, AsI32(c), AsI32(current));
        DecideChain(current, c, changes, Serials(changes), InRange(snaps, AsI32(c), AsI32(current)))
  }

  /** The chain checks on a non-current client's changes, then the stream. */
  function DecideChain(current: int, c: int, changes: seq<LogRow>, serials: seq<int>, near: map<int, Snapshot>): Outcome
  {
    if changes == [] || !Rising(c, serials) then Fallback
    else if serials == [] || serials[|serials| - 1] != current || !Chained(c, serials, near) then Fallback
    else
      assert Linked(c, serials, near, |serials| - 1);
      Stepwise(Stream(current, near[current], Deltas(c, serials, changes, near)))
  }

  predicate Rises(client: int, serials: seq<int>, i: nat)
    requires i < |serials|
  { OldSerial(client, serials, i) < serials[i] }

  predicate Rising(client: int, serials: seq<int>) { forall i | 0 <= i < |serials| :: Rises(client, serials, i) }

  method IsRising(client: int, serials: seq<int>) returns (ok: bool)
    ensures ok == Rising(client, serials)
  {
    var previous := client;
    for i := 0 to |serials|
      invariant previous == if i == 0 then client else serials[i - 1]
      invariant forall k | 0 <= k < i :: Rises(client, serials, k)
    {
      if serials[i] <= previous {
        assert !Rises(client, serials, i);
        return false;
      }
      previous := serials[i];
    }
    return true;
  }

  method IsChained(client: int, serials: seq<int>, snaps: map<int, Snapshot>) returns (ok: bool)
    ensures ok == Chained(client, serials, snaps)
  {
    for i := 0 to |serials|
      invariant forall k | 0 <= k < i :: Linked(client, serials, snaps, k)
    {
      var previous := if i == 0 then client else serials[i - 1];
      if previous !in snaps || serials[i] !in snaps {
        assert !Linked(client, serials, snaps, i);
        return false;
      }
    }
    return true;
  }

  lemma BodyAppend(a: seq<Delta>, d: Delta)
    ensures Body(a + [d]) == Body(a) + DeltaAnswers(d)
  {
    if a == [] {
      assert (a + [d])[1..] == [];
    } else {
      assert (a + [d])[1..] == a[1..] + [d];
      BodyAppend(a[1..], d);
    }
  }

  /** Filter one serial's rows by operation into answers. */
  method AppendAnswers(answers: seq<Answer>, rows: seq<LogRow>, op: LogOp) returns (out: seq<Answer>)
    ensures out == answers + RrAnswers(Wires(rows, op))
  {
    out := answers;
    for i := 0 to |rows|
      invariant out == answers + RrAnswers(Wires(rows[..i], op))
    {
      assert rows[..i + 1][..i] == rows[..i];
      if rows[i].RrLog? && rows[i].op == op {
        out := out + [RrAnswer(Wire(rows[i].rr))];
        assert RrAnswers(Wires(rows[..i + 1], op)) == RrAnswers(Wires(rows[..i], op)) + [RrAnswer(Wire(rows[i].rr))];
      }
    }
    assert rows[..|rows|] == rows;
  }

  function Bucket(m: map<int, seq<LogRow>>, s: int): seq<LogRow> { if s in m then m[s] else [] }

  method GroupBySerial(changes: seq<LogRow>) returns (bySerial: map<int, seq<LogRow>>)
    ensures forall s :: Bucket(bySerial, s) == RowsOf(changes, s)
  {
    bySerial := map[];
    for i := 0 to |changes|
      invariant forall s :: Bucket(bySerial, s) == RowsOf(changes[..i], s)
    {
      var e := changes[i];
      ghost var before := bySerial;
      bySerial := bySerial[e.serial := Bucket(bySerial, e.serial) + [e]];
      assert changes[..i + 1][..i] == changes[..i];
      forall s ensures Bucket(bySerial, s) == RowsOf(changes[..i + 1], s) {
        assert Bucket(before, s) == RowsOf(changes[..i], s);
      }
    }
    assert changes[..|changes|] == changes;
  }

  /** One step: old SOA, deletes, new SOA, adds. */
  method AppendDelta(answers: seq<Answer>, oldSerial: int, oldSnap: Snapshot, rows: seq<LogRow>,
                     serial: int, snap: Snapshot) returns (out: seq<Answer>)
    ensures var d := Delta(oldSerial, oldSnap, Wires(rows, Deleted), serial, snap, Wires(rows, Added));
            out == answers + DeltaAnswers(d)
  {
    out := AppendAnswers(answers + [SoaAnswer(oldSerial, oldSnap)], rows, Deleted);
    out := AppendAnswers(out + [SoaAnswer(serial, snap)], rows, Added);
  }

  lemma BodyGrows(answers: seq<Answer>, ds: seq<Delta>, i: nat)
    requires i < |ds|
    ensures answers + Body(ds[..i + 1]) == (answers + Body(ds[..i])) + DeltaAnswers(ds[i])
  {
    assert ds[..i + 1] == ds[..i] + [ds[i]];
    BodyAppend(ds[..i], ds[i]);
  }

  /** The loop over the serials, each with its own rows. */
  method StreamSteps(answers: seq<Answer>, client: int, serials: seq<int>, bySerial: map<int, seq<LogRow>>,
                     ghost changes: seq<LogRow>, snaps: map<int, Snapshot>) returns (out: seq<Answer>)
    requires Chained(client, serials, snaps)
    requires forall s :: Bucket(bySerial, s) == RowsOf(changes, s)
    ensures out == answers + Body(Deltas(client, serials, changes, snaps))
  {
    ghost var ds := Deltas(client, serials, changes, snaps);
    out := answers;
    for i := 0 to |serials|
      invariant out == answers + Body(ds[..i])
    {
      var previous := if i == 0 then client else serials[i - 1];
      assert previous == OldSerial(client, serials, i) && Linked(client, serials, snaps, i);
      BodyGrows(answers, ds, i);
      out := AppendDelta(out, previous, snaps[previous], Bucket(bySerial, serials[i]), serials[i], snaps[serials[i]]);
    }
    assert ds[..|serials|] == ds;
  }

  /** `stream_ixfr_body`: group the rows by serial, then send each serial's step. */
  method StreamBody(current: int, client: int, changes: seq<LogRow>, snaps: map<int, Snapshot>)
    returns (answers: seq<Answer>)
    requires current in snaps && Chained(client, Serials(changes), snaps)
    ensures answers == Stream(current, snaps[current], Deltas(client, Serials(changes), changes, snaps))
  {
    var soa := SoaAnswer(current, snaps[current]);
    var bySerial := GroupBySerial(changes);
    answers := StreamSteps([soa], client, Serials(changes), bySerial, changes, snaps);
    answers := answers + [soa];
  }

  /** `handle_ixfr`, with the log and the snapshots as they stand when each is read. */
  method HandleIxfr(zoneSerial: int, log: seq<LogRow>, snaps: map<int, Snapshot>, client: Option<u32>)
    returns (out: Outcome)
    requires -MAX_SERIAL - 1 <= zoneSerial <= MAX_SERIAL
    ensures out == Decide(zoneSerial, log, snaps, client)
  {
    if ToU32(zoneSerial) == None { return Failed; }
    if client == None { return Fallback; }
    var current, c := ToU32(zoneSerial).value, client.value;
    if c == current {
      if AsI32(current) in snaps { return Single([SoaAnswer(current, snaps[AsI32(current)])]); }
      return Fallback;
    }
    if c > current { return Fallback; }
    var changes := Between(log, AsI32(c), AsI32(current));
    if changes == [] { return Fallback; }
    var serials := Serials(changes);
    var rising := IsRising(c, serials);
    if !rising { return Fallback; }
    if serials != [] && serials[|serials| - 1] != current { return Fallback; }
    var near := InRange(snaps, AsI32(c), AsI32(current));
    var chained := IsChained(c, serials, near);
    if !chained { return Fallback; }
    assert serials != [] by { SerialsSpec(changes); assert changes[0] in changes; }
    assert Linked(c, serials, near, |serials| - 1);
    var answers := StreamBody(current, c, changes, near);
    return Stepwise(answers);
  }
}
