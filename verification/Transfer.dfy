/** What the incremental transfer guarantees over whole runs: which reply is sent,
    that concurrent commits do not show, that a reader recovers the steps, and that
    applying them gives the current record set. */
module Transfer {
  import opened Records
  import opened Zone
  import opened Replay
  import opened Ixfr
  import History

  // ---- Reading a reply back (section 4 of RFC 1995) --------------------------

  /** Leading non-SOA answers, and the rest. */
  function Span(q: seq<Answer>): (r: (seq<WireRr>, seq<Answer>))
    ensures |r.1| <= |q|
    ensures r.1 == [] || r.1[0].SoaAnswer?
  {
    if q == [] || q[0].SoaAnswer? then ([], q)
    else var (xs, rest) := Span(q[1..]); ([q[0].x] + xs, rest)
  }

  /** Steps until the SOA with the reply's own serial, which must end the reply. */
  function ReadSteps(serial: int, q: seq<Answer>): Option<seq<Delta>>
    decreases |q|
  {
    if q == [] || !q[0].SoaAnswer? then None
    else if q[0].serial == serial then if |q| == 1 then Some([]) else None
    else
      var (dels, q1) := Span(q[1..]);
      if q1 == [] then None
      else
        var (adds, q2) := Span(q1[1..]);
        match ReadSteps(serial, q2)
        case None => None
        case Some(ds) => Some([Delta(q[0].serial, q[0].snap, dels, q1[0].serial, q1[0].snap, adds)] + ds)
  }

  function ReadReply(q: seq<Answer>): Option<Transfer> {
    if q == [] || !q[0].SoaAnswer? then None
    else if |q| == 1 then Some(UpToDate(q[0].serial))
    else if q[1].RrAnswer? then
      var (xs, rest) := Span(q[1..]);
      if rest == [q[0]] then Some(Full(q[0].serial, xs)) else None
    else
      match ReadSteps(q[0].serial, q[1..])
      case None => None
      case Some(ds) => Some(Incremental(q[0].serial, ds))
  }

  lemma {:induction false} SpanAnswers(xs: seq<WireRr>, rest: seq<Answer>)
    requires rest == [] || rest[0].SoaAnswer?
    ensures Span(RrAnswers(xs) + rest) == (xs, rest)
  {
    var q := RrAnswers(xs) + rest;
    if xs == [] {
      assert q == rest;
    } else {
      assert q[0] == RrAnswer(xs[0]);
      assert q[1..] == RrAnswers(xs[1..]) + rest;
      SpanAnswers(xs[1..], rest);
      assert [xs[0]] + xs[1..] == xs;
    }
  }

  /** One step and what follows it. */
  lemma ReadOneStep(serial: int, d: Delta, rest: seq<Answer>)
    requires d.oldSerial != serial && rest != [] && rest[0].SoaAnswer?
    ensures ReadSteps(serial, DeltaAnswers(d) + rest) ==
            match ReadSteps(serial, rest) case None => None case Some(ds) => Some([d] + ds)
  {
    var q1 := [SoaAnswer(d.newSerial, d.newSnap)] + (RrAnswers(d.adds) + rest);
    var q := DeltaAnswers(d) + rest;
    assert q == [SoaAnswer(d.oldSerial, d.oldSnap)] + (RrAnswers(d.dels) + q1);
    assert q[1..] == RrAnswers(d.dels) + q1;
    SpanAnswers(d.dels, q1);
    assert q1[1..] == RrAnswers(d.adds) + rest;
    SpanAnswers(d.adds, rest);
  }

  lemma {:induction false} ReadOwnSteps(serial: int, snap: Snapshot, ds: seq<Delta>)
    requires forall d | d in ds :: d.oldSerial != serial
    ensures ReadSteps(serial, Body(ds) + [SoaAnswer(serial, snap)]) == Some(ds)
    decreases |ds|
  {
    var end := [SoaAnswer(serial, snap)];
    if ds == [] {
      assert Body(ds) + end == end;
    } else {
      var rest := Body(ds[1..]) + end;
      ReadOwnSteps(serial, snap, ds[1..]);
      assert rest[0].SoaAnswer? by { if |ds| > 1 { assert rest[0] == DeltaAnswers(ds[1])[0]; } }
      assert ds[0] in ds;
      ReadOneStep(serial, ds[0], rest);
      assert Body(ds) + end == DeltaAnswers(ds[0]) + rest;
      assert [ds[0]] + ds[1..] == ds;
    }
  }

  lemma StreamReadsBack(serial: int, snap: Snapshot, ds: seq<Delta>)
    requires ds != [] && forall d | d in ds :: d.oldSerial != serial
    ensures ReadReply(Stream(serial, snap, ds)) == Some(Incremental(serial, ds))
  {
    var q := Stream(serial, snap, ds);
    var rest := Body(ds) + [SoaAnswer(serial, snap)];
    assert q == [SoaAnswer(serial, snap)] + rest;
    assert q[1..] == rest;
    assert rest[0] == SoaAnswer(ds[0].oldSerial, ds[0].oldSnap);
    ReadOwnSteps(serial, snap, ds);
  }

  lemma FullReadsBack(serial: int, snap: Snapshot, records: seq<WireRr>)
    requires records != []
    ensures ReadReply(FullStream(serial, snap, records)) == Some(Full(serial, records))
  {
    var f, soa := FullStream(serial, snap, records), SoaAnswer(serial, snap);
    assert f[1..] == RrAnswers(records) + [soa];
    SpanAnswers(records, [soa]);
  }

  // ---- Which reply is sent ----------------------------------------------------

  /** State i was committed with log rows of its own. */
  ghost predicate LoggedAt(h: seq<State>, i: nat)
    requires i < |h|
  { i > 0 && |h[i - 1].log| < |h[i].log| }

  /** A serial with no log rows has the records and metadata of its predecessor. */
  lemma QuietSerial(h: seq<State>, i: nat)
    requires IsRun(h) && 0 < i < |h| && !LoggedAt(h, i)
    ensures Rrs(h[i].rows) == Rrs(h[i - 1].rows) && h[i].meta == h[i - 1].meta
  {
    RunGrows(h, i - 1, i);
    assert Tail(h, i - 1, i) == [];
    CommitPlay(h, i);
    assert StepAt(h, i);
  }

  lemma TailTop(h: seq<State>, c: nat, i: nat)
    requires IsRun(h) && c < i < |h|
    ensures (exists e | e in Tail(h, c, i) :: e.serial == h[i].serial) <==> LoggedAt(h, i)
  {
    RunTail(h, c, i - 1);
    CommitTail(h, i);
    TailSplit(h, c, i - 1, i);
    if LoggedAt(h, i) {
      assert Tail(h, i - 1, i)[0] in Tail(h, c, i);
    }
  }

  /** The snapshots read at any later state, restricted to the requested range. */
  lemma SameSnapshots(h: seq<State>, c: int, i: nat, k: nat)
    requires IsRun(h) && i <= k < |h|
    ensures InRange(h[k].snaps, c, h[i].serial) == InRange(h[i].snaps, c, h[i].serial)
    ensures forall s :: s in InRange(h[k].snaps, c, h[i].serial) <==> c <= s <= h[i].serial && h[0].serial <= s
  {
    RunSerial(h, i);
    forall s ensures s in h[k].snaps <==> h[0].serial <= s <= h[0].serial + k {
      RunSnapshots(h, k, s);
    }
    forall s ensures s in h[i].snaps <==> h[0].serial <= s <= h[0].serial + i {
      RunSnapshots(h, i, s);
    }
    forall s | s in h[i].snaps ensures h[k].snaps[s] == h[i].snaps[s] {
      RunSnapshots(h, k, s);
      RunSnapshots(h, i, s);
    }
  }

  lemma LastSerial(changes: seq<LogRow>, top: int)
    requires forall e | e in changes :: e.serial <= top
    ensures (Serials(changes) != [] && Serials(changes)[|Serials(changes)| - 1] == top)
            <==> exists e | e in changes :: e.serial == top
  {
    SerialsSpec(changes);
    var q := Serials(changes);
    assert top in q <==> exists e | e in changes :: e.serial == top;
    assert q != [] ==> q[|q| - 1] in q;
    if top in q {
      var i :| 0 <= i < |q| && q[i] == top;
    }
  }

  lemma RisingSerials(changes: seq<LogRow>, c: int)
    requires forall e | e in changes :: c < e.serial
    ensures Rising(c, Serials(changes))
  {
    SerialsSpec(changes);
    var q := Serials(changes);
    forall i | 0 <= i < |q| ensures Rises(c, q, i) {
      assert q[i] in q;
    }
  }

  /** The snapshots a client at state c is answered from in state i. */
  ghost function NearSnaps(h: seq<State>, c: nat, i: nat): map<int, Snapshot>
    requires c < i < |h|
  { InRange(h[i].snaps, h[c].serial, h[i].serial) }

  /** Every serial of a reply has its snapshot, and so does the current one. */
  lemma RunChained(h: seq<State>, c: nat, i: nat)
    requires IsRun(h) && c < i < |h|
    ensures Chained(h[c].serial, Serials(Tail(h, c, i)), NearSnaps(h, c, i))
    ensures h[i].serial in NearSnaps(h, c, i)
  {
    RunSerial(h, c);
    RunSerial(h, i);
    RunTail(h, c, i);
    SameSnapshots(h, h[c].serial, i, i);
    SerialsSpec(Tail(h, c, i));
    var q, near := Serials(Tail(h, c, i)), NearSnaps(h, c, i);
    forall n | 0 <= n < |q| ensures Linked(h[c].serial, q, near, n) {
      assert q[n] in q;
      assert n > 0 ==> q[n - 1] in q;
    }
  }

  /** The steps a client at state c is sent in state i. */
  ghost function Sent(h: seq<State>, c: nat, i: nat): seq<Delta>
    requires IsRun(h) && c < i < |h|
  {
    RunChained(h, c, i);
    Deltas(h[c].serial, Serials(Tail(h, c, i)), Tail(h, c, i), NearSnaps(h, c, i))
  }

  /** A client inside the history: steps exactly when the current serial has log rows. */
  lemma DecideInside(h: seq<State>, i: nat, j: nat, k: nat, c: nat)
    requires IsRun(h) && c < i <= j < |h| && i <= k < |h|
    ensures 0 <= h[c].serial < h[i].serial <= MAX_SERIAL
    ensures Decide(h[i].serial, h[j].log, h[k].snaps, Some(h[c].serial)) ==
            if LoggedAt(h, i)
            then Stepwise(Stream(h[i].serial, SnapshotOf(h[i].meta), Sent(h, c, i)))
            else Fallback
  {
    RunSerial(h, c);
    RunSerial(h, i);
    ReadsSettled(h, i, j, k, c);
    ChainDecided(h, c, i);
  }

  /** Whenever the log and the snapshots are read, the requested ranges hold the same. */
  lemma ReadsSettled(h: seq<State>, i: nat, j: nat, k: nat, c: nat)
    requires IsRun(h) && c < i <= j < |h| && i <= k < |h|
    requires 0 <= h[c].serial < h[i].serial <= MAX_SERIAL
    ensures Decide(h[i].serial, h[j].log, h[k].snaps, Some(h[c].serial))
         == DecideChain(h[i].serial, h[c].serial, Tail(h, c, i), Serials(Tail(h, c, i)),
                        NearSnaps(h, c, i))
  {
    RunBetween(h, c, i, j);
    SameSnapshots(h, h[c].serial, i, k);
    DecideReads(h[i].serial, h[j].log, h[k].snaps, h[c].serial);
  }

  lemma DecideReads(current: int, log: seq<LogRow>, snaps: map<int, Snapshot>, c: int)
    requires 0 <= c < current <= MAX_SERIAL
    ensures Decide(current, log, snaps, Some(c))
         == DecideChain(current, c, Between(log, c, current), Serials(Between(log, c, current)),
                        InRange(snaps, c, current))
  {
    assert AsI32(c) == c && AsI32(current) == current && ToU32(current) == Some(current);
  }

  lemma ChainDecided(h: seq<State>, c: nat, i: nat)
    requires IsRun(h) && c < i < |h|
    ensures DecideChain(h[i].serial, h[c].serial, Tail(h, c, i), Serials(Tail(h, c, i)), NearSnaps(h, c, i)) ==
            if LoggedAt(h, i) then Stepwise(Stream(h[i].serial, SnapshotOf(h[i].meta), Sent(h, c, i))) else Fallback
  {
    RunChained(h, c, i);
    var q := Serials(Tail(h, c, i));
    assert Rising(h[c].serial, q) && (q != [] && q[|q| - 1] == h[i].serial <==> LoggedAt(h, i)) by {
      RunTail(h, c, i);
      TailTop(h, c, i);
      RisingSerials(Tail(h, c, i), h[c].serial);
      LastSerial(Tail(h, c, i), h[i].serial);
    }
    assert NearSnaps(h, c, i)[h[i].serial] == SnapshotOf(h[i].meta) by {
      RunSerial(h, i);
      RunSnapshots(h, i, h[i].serial);
    }
  }

  /** The client's serial is one the zone had before its current one. */
  ghost predicate InHistory(h: seq<State>, i: nat, client: Option<u32>)
    requires i < |h|
  { client.Some? && h[0].serial <= client.value < h[i].serial && client.value - h[0].serial < i }

  /** The reply for a client, in terms of the run at the time the zone row was read. */
  ghost predicate DecisionSpec(h: seq<State>, i: nat, client: Option<u32>, out: Outcome)
    requires IsRun(h) && i < |h|
  {
    if client == Some(h[i].serial) then
      out == Single([SoaAnswer(h[i].serial, SnapshotOf(h[i].meta))])
    else if InHistory(h, i, client) && LoggedAt(h, i) then
      out == Stepwise(Stream(h[i].serial, SnapshotOf(h[i].meta), Sent(h, client.value - h[0].serial, i)))
    else out == Fallback
  }

  /** Without a snapshot of the client's serial there is no chain to send. */
  lemma NoSnapshotNoSteps(current: int, log: seq<LogRow>, snaps: map<int, Snapshot>, c: int)
    requires 0 <= c < current <= MAX_SERIAL && c !in snaps
    ensures Decide(current, log, snaps, Some(c)) == Fallback
  {
    DecideReads(current, log, snaps, c);
    var q := Serials(Between(log, c, current));
    if q != [] { assert !Linked(c, q, InRange(snaps, c, current), 0); }
  }

  /** A client from before the zone's first serial is never sent steps. */
  lemma DecideBefore(h: seq<State>, i: nat, j: nat, k: nat, client: Option<u32>)
    requires IsRun(h) && i <= j < |h| && i <= k < |h| && client.Some? && client.value < h[0].serial
    ensures 1 <= h[i].serial <= MAX_SERIAL
    ensures DecisionSpec(h, i, client, Decide(h[i].serial, h[j].log, h[k].snaps, client))
  {
    RunSerial(h, i);
    RunSnapshots(h, k, client.value);
    NoSnapshotNoSteps(h[i].serial, h[j].log, h[k].snaps, client.value);
  }

  lemma DecideOutside(h: seq<State>, i: nat, j: nat, k: nat, client: Option<u32>)
    requires IsRun(h) && i <= j < |h| && i <= k < |h|
    requires client == None || client.value >= h[i].serial
    ensures 1 <= h[i].serial <= MAX_SERIAL
    ensures DecisionSpec(h, i, client, Decide(h[i].serial, h[j].log, h[k].snaps, client))
  {
    RunSerial(h, i);
    RunSnapshots(h, k, h[i].serial);
  }

  lemma DecideWithin(h: seq<State>, i: nat, j: nat, k: nat, client: Option<u32>)
    requires IsRun(h) && i <= j < |h| && i <= k < |h|
    requires client.Some? && h[0].serial <= client.value < h[i].serial
    ensures 1 <= h[i].serial <= MAX_SERIAL
    ensures DecisionSpec(h, i, client, Decide(h[i].serial, h[j].log, h[k].snaps, client))
  {
    RunSerial(h, i);
    RunSerial(h, client.value - h[0].serial);
    DecideInside(h, i, j, k, client.value - h[0].serial);
    SpecInside(h, i, client, Decide(h[i].serial, h[j].log, h[k].snaps, client));
  }

  lemma SpecInside(h: seq<State>, i: nat, client: Option<u32>, out: Outcome)
    requires IsRun(h) && i < |h| && client.Some? && h[0].serial <= client.value < h[i].serial
    requires client.value - h[0].serial < i
    requires out == if LoggedAt(h, i)
                    then Stepwise(Stream(h[i].serial, SnapshotOf(h[i].meta), Sent(h, client.value - h[0].serial, i)))
                    else Fallback
    ensures DecisionSpec(h, i, client, out)
  {
  }

  /** The choice of reply is exact, and the same whenever the log and the snapshots
      are read after the zone row, whatever commits fall between the reads: steps
      exactly for a client inside the history when the current serial itself has log
      rows, the single SOA exactly for a current client, else a full transfer. */
  lemma DecisionExact(h: seq<State>, i: nat, j: nat, k: nat, client: Option<u32>)
    requires IsRun(h) && i <= j < |h| && i <= k < |h|
    ensures 1 <= h[i].serial <= MAX_SERIAL
    ensures DecisionSpec(h, i, client, Decide(h[i].serial, h[j].log, h[k].snaps, client))
  {
    if client == None || client.value >= h[i].serial {
      DecideOutside(h, i, j, k, client);
    } else if client.value < h[0].serial {
      DecideBefore(h, i, j, k, client);
    } else {
      DecideWithin(h, i, j, k, client);
    }
  }

  // ---- Applying the steps -------------------------------------------------------

  ghost function Applied(w: set<WireRr>, ds: seq<Delta>): set<WireRr> {
    if ds == [] then w else Regrouped(Applied(w, ds[..|ds| - 1]), ds[|ds| - 1].dels, ds[|ds| - 1].adds)
  }

  /** The last of `serials` that touches `x` adds it, or only deletes it. */
  ghost function StepVerdict(serials: seq<int>, log: seq<LogRow>, x: WireRr): Option<LogOp> {
    if serials == [] then None
    else
      var rows := RowsOf(log, serials[|serials| - 1]);
      if x in Wires(rows, Added) then Some(Added)
      else if x in Wires(rows, Deleted) then Some(Deleted)
      else StepVerdict(serials[..|serials| - 1], log, x)
  }

  lemma DeltasPrefix(c: int, serials: seq<int>, k: nat, log: seq<LogRow>, snaps: map<int, Snapshot>)
    requires Chained(c, serials, snaps) && k <= |serials|
    ensures Chained(c, serials[..k], snaps)
    ensures Deltas(c, serials, log, snaps)[..k] == Deltas(c, serials[..k], log, snaps)
  {
    forall i | 0 <= i < k
      ensures Linked(c, serials[..k], snaps, i) && OldSerial(c, serials[..k], i) == OldSerial(c, serials, i)
    {
      assert Linked(c, serials, snaps, i);
    }
  }

  lemma {:induction false} AppliedVerdict(c: int, serials: seq<int>, log: seq<LogRow>, snaps: map<int, Snapshot>,
                                          w: set<WireRr>, x: WireRr)
    requires Chained(c, serials, snaps)
    ensures x in Applied(w, Deltas(c, serials, log, snaps)) <==> Present(w, StepVerdict(serials, log, x), x)
    decreases |serials|
  {
    if serials != [] {
      var n := |serials| - 1;
      DeltasPrefix(c, serials, n, log, snaps);
      AppliedVerdict(c, serials[..n], log, snaps, w, x);
      var ds := Deltas(c, serials, log, snaps);
      LastStep(w, ds, x);
      assert ds[n] == DeltaAt(c, serials, n, log, snaps);
    }
  }

  lemma LastStep(w: set<WireRr>, ds: seq<Delta>, x: WireRr)
    requires ds != []
    ensures var d := ds[|ds| - 1];
            x in Applied(w, ds) <==> x in d.adds || (x !in d.dels && x in Applied(w, ds[..|ds| - 1]))
  {
  }

  ghost predicate InOrder(log: seq<LogRow>, i: nat, j: nat)
    requires i < |log| && j < |log|
  { log[i].serial <= log[j].serial }

  ghost predicate SortedLog(log: seq<LogRow>) { forall i, j | 0 <= i < j < |log| :: InOrder(log, i, j) }

  /** Where the rows of the top serial start. */
  lemma {:induction false} SplitTop(log: seq<LogRow>, top: int) returns (m: nat)
    requires SortedLog(log) && forall e | e in log :: e.serial <= top
    ensures m <= |log|
    ensures forall e | e in log[..m] :: e.serial < top
    ensures forall e | e in log[m..] :: e.serial == top
  {
    m := |log|;
    while m > 0 && log[m - 1].serial == top
      invariant m <= |log|
      invariant forall e | e in log[m..] :: e.serial == top
    {
      m := m - 1;
    }
    if m > 0 {
      assert log[m - 1] in log;
      forall e | e in log[..m] ensures e.serial < top {
        var i :| 0 <= i < m && log[i] == e;
        assert i < m - 1 ==> InOrder(log, i, m - 1);
      }
    }
  }

  lemma LowRows(serials: seq<int>, a: seq<LogRow>, b: seq<LogRow>)
    requires serials != [] && Increasing(serials)
    requires forall e | e in b :: e.serial == serials[|serials| - 1]
    ensures forall s | s in serials[..|serials| - 1] :: s in serials && RowsOf(a, s) == RowsOf(a + b, s)
  {
    var n := |serials| - 1;
    forall s | s in serials[..n] ensures s in serials && RowsOf(a, s) == RowsOf(a + b, s) {
      var i :| 0 <= i < n && serials[i] == s;
      BelowRows(a, b, serials[n], s);
    }
  }

  /** Below the top serial nothing but the earlier rows is seen. */
  lemma LowSerials(serials: seq<int>, a: seq<LogRow>, b: seq<LogRow>, x: WireRr)
    requires serials != [] && Increasing(serials)
    requires forall e | e in b :: e.serial == serials[|serials| - 1]
    ensures StepVerdict(serials[..|serials| - 1], a, x) == StepVerdict(serials[..|serials| - 1], a + b, x)
    ensures AllSerialsSettled(serials, a + b) ==> AllSerialsSettled(serials[..|serials| - 1], a)
  {
    LowRows(serials, a, b);
    SameStepVerdict(serials[..|serials| - 1], a, a + b, x);
  }

  ghost predicate EachSettled(serials: seq<int>, log: seq<LogRow>) {
    forall s | s in serials :: Settled(RowsOf(log, s))
  }

  ghost predicate AllSerialsSettled(serials: seq<int>, log: seq<LogRow>) { EachSettled(serials, log) == true }

  /** A log split at the top serial: the rows below it and its own. */
  lemma SplitSerials(serials: seq<int>, log: seq<LogRow>) returns (a: seq<LogRow>, b: seq<LogRow>)
    requires serials != [] && Increasing(serials) && SortedLog(log)
    requires forall e | e in log :: e.serial in serials
    ensures log == a + b && SortedLog(a)
    ensures forall e | e in a :: e.serial in serials[..|serials| - 1]
    ensures forall e | e in b :: e.serial == serials[|serials| - 1]
    ensures RowsOf(log, serials[|serials| - 1]) == b
  {
    var n := |serials| - 1;
    forall e | e in log ensures e.serial <= serials[n] { var i :| 0 <= i < |serials| && serials[i] == e.serial; }
    var m := SplitTop(log, serials[n]);
    a, b := log[..m], log[m..];
    assert log == a + b;
    forall i, j | 0 <= i < j < m ensures InOrder(a, i, j) { assert InOrder(log, i, j); }
    forall e | e in a ensures e.serial in serials[..n] {
      assert e in log;
      var i :| 0 <= i < |serials| && serials[i] == e.serial;
      assert serials[..n][i] == e.serial;
    }
    TopRows(a, b, serials[n]);
  }

  /** Step-wise and row-wise readings of the log agree, up to adds deleted in the same serial. */
  ghost predicate Agrees(serials: seq<int>, log: seq<LogRow>, x: WireRr) {
    var sv, v := StepVerdict(serials, log, x), Verdict(log, x);
    && (sv == None <==> v == None)
    && (v == Some(Added) ==> sv == Some(Added))
    && (AllSerialsSettled(serials, log) ==> sv == v)
  }

  /** The two readings of the top serial's rows, given those of the rows below. */
  lemma TopReadings(b: seq<LogRow>, low: Option<LogOp>, v: Option<LogOp>, x: WireRr)
    requires low == None <==> v == None
    requires v == Some(Added) ==> low == Some(Added)
    ensures var sv := if x in Wires(b, Added) then Some(Added)
                      else if x in Wires(b, Deleted) then Some(Deleted) else low;
            var vv := if Verdict(b, x).Some? then Verdict(b, x) else v;
            && (sv == None <==> vv == None)
            && (vv == Some(Added) ==> sv == Some(Added))
            && (Settled(b) && low == v ==> sv == vv)
  {
    VerdictTouches(b, x);
    match Verdict(b, x) {
      case None =>
      case Some(op) => assert op == Added || op == Deleted;
    }
  }

  lemma AgreesTop(serials: seq<int>, a: seq<LogRow>, b: seq<LogRow>, x: WireRr)
    requires serials != [] && Increasing(serials)
    requires forall e | e in b :: e.serial == serials[|serials| - 1]
    requires RowsOf(a + b, serials[|serials| - 1]) == b
    requires Agrees(serials[..|serials| - 1], a, x)
    ensures Agrees(serials, a + b, x)
  {
    var low := serials[..|serials| - 1];
    LowSerials(serials, a, b, x);
    VerdictAppend(a, b, x);
    TopReadings(b, StepVerdict(low, a, x), Verdict(a, x), x);
    assert AllSerialsSettled(serials, a + b) ==> Settled(b) by { assert serials[|serials| - 1] in serials; }
  }

  lemma {:induction false} StepVerdictAgrees(serials: seq<int>, log: seq<LogRow>, x: WireRr)
    requires Increasing(serials) && SortedLog(log)
    requires forall e | e in log :: e.serial in serials
    ensures Agrees(serials, log, x)
    decreases |serials|
  {
    if log == [] {
      if serials != [] { StepVerdictAgrees(serials[..|serials| - 1], log, x); }
    } else {
      assert log[0] in log;
      var a, b := SplitSerials(serials, log);
      StepVerdictAgrees(serials[..|serials| - 1], a, x);
      AgreesTop(serials, a, b, x);
    }
  }

  lemma TopRows(a: seq<LogRow>, b: seq<LogRow>, top: int)
    requires forall e | e in a :: e.serial < top
    requires forall e | e in b :: e.serial == top
    ensures RowsOf(a + b, top) == b
  {
    BetweenSplit(a, b, top - 1, top);
    BetweenAllOrNone(a, top - 1, top);
    BetweenAllOrNone(b, top - 1, top);
  }

  lemma BelowRows(a: seq<LogRow>, b: seq<LogRow>, top: int, s: int)
    requires s < top && forall e | e in b :: e.serial == top
    ensures RowsOf(a + b, s) == RowsOf(a, s)
  {
    BetweenSplit(a, b, s - 1, s);
    BetweenAllOrNone(b, s - 1, s);
  }

  lemma {:induction false} SameStepVerdict(serials: seq<int>, a: seq<LogRow>, b: seq<LogRow>, x: WireRr)
    requires forall s | s in serials :: RowsOf(a, s) == RowsOf(b, s)
    ensures StepVerdict(serials, a, x) == StepVerdict(serials, b, x)
  {
    if serials != [] { SameStepVerdict(serials[..|serials| - 1], a, b, x); }
  }

  lemma SortedAppend(a: seq<LogRow>, b: seq<LogRow>, s: int)
    requires SortedLog(a) && (forall e | e in a :: e.serial < s) && (forall e | e in b :: e.serial == s)
    ensures SortedLog(a + b)
  {
    forall i, j | 0 <= i < j < |a + b| ensures InOrder(a + b, i, j) {
      if j < |a| {
        assert InOrder(a, i, j);
      } else {
        assert (a + b)[j] in b && (i < |a| ==> (a + b)[i] in a) && (i >= |a| ==> (a + b)[i] in b);
      }
    }
  }

  lemma {:induction false} RunSortedLog(h: seq<State>, c: nat, i: nat)
    requires IsRun(h) && c <= i < |h|
    ensures SortedLog(Tail(h, c, i))
    decreases i - c
  {
    if c < i {
      RunSortedLog(h, c, i - 1);
      RunTail(h, c, i - 1);
      CommitTail(h, i);
      TailSplit(h, c, i - 1, i);
      SortedAppend(Tail(h, c, i - 1), Tail(h, i - 1, i), h[i].serial);
    }
  }

  lemma RunVerdict(h: seq<State>, c: nat, i: nat, x: WireRr)
    requires IsRun(h) && c <= i < |h|
    ensures x in WireSet(Rrs(h[i].rows)) <==> Present(WireSet(Rrs(h[c].rows)), Verdict(Tail(h, c, i), x), x)
  {
    RunPlay(h, c, i);
    History.RunKeys(h, c);
    PlayVerdict(Rrs(h[c].rows), Tail(h, c, i), x);
  }

  lemma SentVerdict(h: seq<State>, c: nat, i: nat, w: set<WireRr>, x: WireRr)
    requires IsRun(h) && c < i < |h|
    ensures x in Applied(w, Sent(h, c, i)) <==> Present(w, StepVerdict(Serials(Tail(h, c, i)), Tail(h, c, i), x), x)
    ensures Agrees(Serials(Tail(h, c, i)), Tail(h, c, i), x)
  {
    RunChained(h, c, i);
    RunSortedLog(h, c, i);
    var log := Tail(h, c, i);
    AppliedVerdict(h[c].serial, Serials(log), log, NearSnaps(h, c, i), w, x);
    SerialsSpec(log);
    StepVerdictAgrees(Serials(log), log, x);
  }

  /** The last step touching `x` adds it and its last log row is an ADD, or the step does not add it. */
  ghost predicate LastWordStands(log: seq<LogRow>, x: WireRr) {
    StepVerdict(Serials(log), log, x) == Some(Added) ==> Verdict(log, x) == Some(Added)
  }

  lemma ReplayAt(h: seq<State>, c: nat, i: nat, x: WireRr)
    requires IsRun(h) && c < i < |h|
    ensures (x in Applied(WireSet(Rrs(h[c].rows)), Sent(h, c, i)) <==> x in WireSet(Rrs(h[i].rows)))
            <==> LastWordStands(Tail(h, c, i), x)
  {
    SentVerdict(h, c, i, WireSet(Rrs(h[c].rows)), x);
    RunVerdict(h, c, i, x);
  }

  /** Replay equals truth exactly when every record that the last step touching it
      adds has an ADD as its last log row. */
  lemma ReplayExact(h: seq<State>, c: nat, i: nat)
    requires IsRun(h) && c < i < |h|
    ensures Applied(WireSet(Rrs(h[c].rows)), Sent(h, c, i)) == WireSet(Rrs(h[i].rows))
            <==> forall x :: LastWordStands(Tail(h, c, i), x)
  {
    RunChained(h, c, i);
    forall x ensures (x in Applied(WireSet(Rrs(h[c].rows)), Sent(h, c, i)) <==> x in WireSet(Rrs(h[i].rows)))
                     <==> LastWordStands(Tail(h, c, i), x) {
      ReplayAt(h, c, i, x);
    }
  }

  /** The rows committed with state n add no record they end up deleting. */
  ghost predicate SettledAt(h: seq<State>, n: nat)
    requires IsRun(h) && 0 < n < |h|
  { Settled(Tail(h, n - 1, n)) }

  /** When every serial is settled, the steps sent to a client at serial c bring it to
      the current record set even if it holds the records of a serial later than c, as
      after a full transfer that raced a commit. */
  lemma ReplayConverges(h: seq<State>, c: nat, m: nat, i: nat)
    requires IsRun(h) && c <= m <= i < |h| && c < i
    requires forall n | c < n <= i :: SettledAt(h, n)
    ensures Applied(WireSet(Rrs(h[m].rows)), Sent(h, c, i)) == WireSet(Rrs(h[i].rows))
  {
    RunChained(h, c, i);
    AllSettled(h, c, i);
    var log, w := Tail(h, c, i), WireSet(Rrs(h[m].rows));
    RunTail(h, c, m);
    RunTail(h, m, i);
    TailSplit(h, c, m, i);
    forall x ensures x in Applied(w, Sent(h, c, i)) <==> x in WireSet(Rrs(h[i].rows)) {
      SentVerdict(h, c, i, w, x);
      RunVerdict(h, m, i, x);
      RunVerdict(h, c, m, x);
      VerdictAppend(Tail(h, c, m), Tail(h, m, i), x);
    }
  }

  /** The rows sent for one serial are the rows its commit logged. */
  lemma RowsOfCommit(h: seq<State>, c: nat, n: nat, i: nat)
    requires IsRun(h) && c < n <= i < |h|
    ensures RowsOf(Tail(h, c, i), h[n].serial) == Tail(h, n - 1, n)
  {
    RunTail(h, c, n - 1);
    CommitTail(h, n);
    RunTail(h, n, i);
    TailSplit(h, c, n - 1, n);
    TailSplit(h, c, n, i);
    BetweenSandwich(Tail(h, c, n - 1), Tail(h, n - 1, n), Tail(h, n, i), h[n].serial - 1, h[n].serial);
  }

  lemma SerialIndex(h: seq<State>, c: nat, i: nat, s: int) returns (n: nat)
    requires IsRun(h) && c < i < |h| && s in Serials(Tail(h, c, i))
    ensures c < n <= i && h[n].serial == s
  {
    RunTail(h, c, i);
    SerialsSpec(Tail(h, c, i));
    RunSerial(h, c);
    RunSerial(h, i);
    n := s - h[0].serial;
    RunSerial(h, n);
  }

  lemma AllSettled(h: seq<State>, c: nat, i: nat)
    requires IsRun(h) && c < i < |h|
    requires forall n | c < n <= i :: SettledAt(h, n)
    ensures AllSerialsSettled(Serials(Tail(h, c, i)), Tail(h, c, i))
  {
    RunTail(h, c, i);
    forall s | s in Serials(Tail(h, c, i)) ensures Settled(RowsOf(Tail(h, c, i), s)) {
      var n := SerialIndex(h, c, i, s);
      assert SettledAt(h, n);
      RowsOfCommit(h, c, n, i);
    }
  }

  lemma SentChain(h: seq<State>, c: nat, i: nat)
    requires IsRun(h) && c < i < |h| && LoggedAt(h, i)
    ensures var ds := Sent(h, c, i);
            && 0 < |ds| && ds[0].oldSerial == h[c].serial && ds[|ds| - 1].newSerial == h[i].serial
            && (forall k | 0 <= k < |ds| - 1 :: ds[k].newSerial == ds[k + 1].oldSerial)
            && (forall d | d in ds :: d.oldSerial < h[i].serial)
  {
    RunChained(h, c, i);
    var log := Tail(h, c, i);
    assert Serials(log) != [] && Serials(log)[|Serials(log)| - 1] == h[i].serial by {
      RunTail(h, c, i);
      TailTop(h, c, i);
      LastSerial(log, h[i].serial);
    }
    assert Rising(h[c].serial, Serials(log)) by {
      RunTail(h, c, i);
      RisingSerials(log, h[c].serial);
    }
    assert Increasing(Serials(log)) by { SerialsSpec(log); }
    ChainOf(h[c].serial, Serials(log), log, NearSnaps(h, c, i));
  }

  lemma ChainOf(c: int, serials: seq<int>, log: seq<LogRow>, snaps: map<int, Snapshot>)
    requires Chained(c, serials, snaps) && serials != [] && Rising(c, serials) && Increasing(serials)
    ensures var ds := Deltas(c, serials, log, snaps);
            && ds[0].oldSerial == c && ds[|ds| - 1].newSerial == serials[|serials| - 1]
            && (forall k | 0 <= k < |ds| - 1 :: ds[k].newSerial == ds[k + 1].oldSerial)
            && (forall d | d in ds :: d.oldSerial < serials[|serials| - 1])
  {
    var ds, n := Deltas(c, serials, log, snaps), |serials| - 1;
    assert ds[0] == DeltaAt(c, serials, 0, log, snaps) && ds[n] == DeltaAt(c, serials, n, log, snaps);
    forall k | 0 <= k < n ensures ds[k].newSerial == ds[k + 1].oldSerial {
      assert ds[k] == DeltaAt(c, serials, k, log, snaps) && ds[k + 1] == DeltaAt(c, serials, k + 1, log, snaps);
    }
    forall d | d in ds ensures d.oldSerial < serials[n] {
      var k :| 0 <= k < |ds| && ds[k] == d;
      assert ds[k] == DeltaAt(c, serials, k, log, snaps);
      assert Rises(c, serials, k);
      assert serials[k] <= serials[n];
    }
  }

  /** What a client inside the history is sent reads back as exactly the steps, and the
      steps chain from the client's serial to the current one. */
  lemma SentReadBack(h: seq<State>, c: nat, i: nat)
    requires IsRun(h) && c < i < |h| && LoggedAt(h, i)
    ensures var ds := Sent(h, c, i);
            && ReadReply(Stream(h[i].serial, SnapshotOf(h[i].meta), ds)) == Some(Incremental(h[i].serial, ds))
            && 0 < |ds| && ds[0].oldSerial == h[c].serial && ds[|ds| - 1].newSerial == h[i].serial
            && forall k | 0 <= k < |ds| - 1 :: ds[k].newSerial == ds[k + 1].oldSerial
  {
    SentChain(h, c, i);
    StreamReadsBack(h[i].serial, SnapshotOf(h[i].meta), Sent(h, c, i));
  }

  function WireRows(rows: seq<Row>): seq<WireRr> { seq(|rows|, i requires 0 <= i < |rows| => Wire(rows[i].rr)) }

  /** A full reply is never mistaken for another kind, whatever commits fall between reading the
      zone row (state i) and the records (state m): a reachable zone is never empty. */
  lemma FullReadBack(h: seq<State>, i: nat, m: nat)
    requires IsRun(h) && i <= m < |h|
    ensures ReadReply(FullStream(h[i].serial, SnapshotOf(h[i].meta), WireRows(h[m].rows)))
         == Some(Full(h[i].serial, WireRows(h[m].rows)))
  {
    assert h[m].rows != [] by { RunValid(h, m); }
    FullReadsBack(h[i].serial, SnapshotOf(h[i].meta), WireRows(h[m].rows));
  }

  // ---- A secondary that insists on exact deltas -----------------------------------

  /** Every step applies strictly to what the steps before it left. */
  ghost predicate StrictSteps(w: set<WireRr>, ds: seq<Delta>) {
    forall k | 0 <= k < |ds| :: StrictAt(w, ds, k)
  }

  ghost predicate CleanAt(h: seq<State>, n: nat)
    requires IsRun(h) && 0 < n < |h|
  { NoLateDelete(Tail(h, n - 1, n)) }

  lemma CleanIsSettled(h: seq<State>, n: nat)
    requires IsRun(h) && 0 < n < |h| && CleanAt(h, n)
    ensures SettledAt(h, n)
  {
    NoLateDeleteSettles(Tail(h, n - 1, n));
  }

  /** The rows at or above a serial do not show in the steps below it. */
  lemma LowVerdict(low: seq<int>, top: int, a: seq<LogRow>, b: seq<LogRow>, x: WireRr)
    requires forall s | s in low :: s < top
    requires forall e | e in b :: top <= e.serial
    ensures StepVerdict(low, a, x) == StepVerdict(low, a + b, x)
  {
    forall s | s in low ensures RowsOf(a, s) == RowsOf(a + b, s) {
      BetweenSplit(a, b, s - 1, s);
      BetweenAllOrNone(b, s - 1, s);
    }
    SameStepVerdict(low, a, a + b, x);
  }

  lemma LowCovered(serials: seq<int>, k: nat, a: seq<LogRow>)
    requires k < |serials| && Increasing(serials)
    requires forall e | e in a :: e.serial in serials && e.serial < serials[k]
    ensures Increasing(serials[..k])
    ensures forall e | e in a :: e.serial in serials[..k]
  {
    forall e | e in a ensures e.serial in serials[..k] {
      var i :| 0 <= i < |serials| && serials[i] == e.serial;
      assert serials[..k][i] == e.serial;
    }
  }

  /** The first k steps, seen from the log rows below step k's serial. */
  lemma PrefixVerdict(c: int, serials: seq<int>, k: nat, a: seq<LogRow>, b: seq<LogRow>,
                      snaps: map<int, Snapshot>, w: set<WireRr>, x: WireRr)
    requires Chained(c, serials, snaps) && k < |serials| && Increasing(serials)
    requires forall e | e in a :: e.serial in serials && e.serial < serials[k]
    requires forall e | e in b :: serials[k] <= e.serial
    requires SortedLog(a) && AllSerialsSettled(serials[..k], a)
    ensures x in Applied(w, Deltas(c, serials, a + b, snaps)[..k]) <==> Present(w, Verdict(a, x), x)
  {
    DeltasPrefix(c, serials, k, a + b, snaps);
    AppliedVerdict(c, serials[..k], a + b, snaps, w, x);
    LowVerdict(serials[..k], serials[k], a, b, x);
    LowCovered(serials, k, a);
    StepVerdictAgrees(serials[..k], a, x);
  }

  /** Serial n divides the log rows after state c. */
  lemma TailAround(h: seq<State>, c: nat, n: nat, i: nat)
    requires IsRun(h) && c < n <= i < |h|
    ensures Tail(h, c, i) == Tail(h, c, n - 1) + Tail(h, n - 1, i)
    ensures forall e | e in Tail(h, c, n - 1) :: e.serial < h[n].serial
    ensures forall e | e in Tail(h, n - 1, i) :: h[n].serial <= e.serial
  {
    TailSplit(h, c, n - 1, i);
    RunTail(h, c, n - 1);
    RunTail(h, n - 1, i);
    RunSerial(h, n - 1);
    RunSerial(h, n);
  }

  lemma TailCovered(h: seq<State>, c: nat, n: nat, i: nat, q: seq<int>)
    requires IsRun(h) && c < n <= i < |h| && q == Serials(Tail(h, c, i))
    ensures Increasing(q)
    ensures forall e | e in Tail(h, c, n - 1) :: e.serial in q && e.serial < h[n].serial
  {
    TailAround(h, c, n, i);
    SerialsSpec(Tail(h, c, i));
  }

  lemma PrefixSteps(h: seq<State>, c: nat, i: nat, k: nat, n: nat, w: set<WireRr>, x: WireRr)
    requires IsRun(h) && c < n <= i < |h|
    requires k < |Serials(Tail(h, c, i))| && Serials(Tail(h, c, i))[k] == h[n].serial
    requires AllSerialsSettled(Serials(Tail(h, c, i))[..k], Tail(h, c, n - 1))
    ensures x in Applied(w, Sent(h, c, i)[..k]) <==> Present(w, Verdict(Tail(h, c, n - 1), x), x)
  {
    var a, b, q := Tail(h, c, n - 1), Tail(h, n - 1, i), Serials(Tail(h, c, i));
    RunSortedLog(h, c, n - 1);
    RunChained(h, c, i);
    TailCovered(h, c, n, i, q);
    TailAround(h, c, n, i);
    PrefixVerdict(h[c].serial, q, k, a, b, NearSnaps(h, c, i), w, x);
  }

  lemma BelowSerial(h: seq<State>, c: nat, i: nat, k: nat, n: nat)
    requires IsRun(h) && c < n <= i < |h|
    requires k < |Serials(Tail(h, c, i))| && Serials(Tail(h, c, i))[k] == h[n].serial
    ensures forall s | s in Serials(Tail(h, c, i))[..k] :: s < h[n].serial
  {
    var q := Serials(Tail(h, c, i));
    SerialsSpec(Tail(h, c, i));
    forall s | s in q[..k] ensures s < q[k] { var m :| 0 <= m < k && q[m] == s; }
  }

  /** A set that holds `x` as the log rows up to state m say holds it as state m does. */
  lemma SameAsState(h: seq<State>, c: nat, m: nat, w: set<WireRr>, held: set<WireRr>, x: WireRr)
    requires IsRun(h) && c <= m < |h| && w == WireSet(Rrs(h[c].rows))
    requires x in held <==> Present(w, Verdict(Tail(h, c, m), x), x)
    ensures x in held <==> x in WireSet(Rrs(h[m].rows))
  {
    RunVerdict(h, c, m, x);
  }

  lemma PrefixAppliedAt(h: seq<State>, c: nat, i: nat, k: nat, n: nat, w: set<WireRr>, held: set<WireRr>, x: WireRr)
    requires IsRun(h) && c < n <= i < |h| && w == WireSet(Rrs(h[c].rows))
    requires k < |Serials(Tail(h, c, i))| && Serials(Tail(h, c, i))[k] == h[n].serial
    requires AllSerialsSettled(Serials(Tail(h, c, i))[..k], Tail(h, c, n - 1))
    requires held == Applied(w, Sent(h, c, i)[..k])
    ensures x in held <==> x in WireSet(Rrs(h[n - 1].rows))
  {
    PrefixSteps(h, c, i, k, n, w, x);
    SameAsState(h, c, n - 1, w, held, x);
  }

  /** Step k is sent to a secondary that, if earlier serials are settled, holds the
      records of the state before the step's serial. */
  lemma PrefixApplied(h: seq<State>, c: nat, i: nat, k: nat, n: nat, w: set<WireRr>)
    requires IsRun(h) && c < n <= i < |h| && w == WireSet(Rrs(h[c].rows))
    requires k < |Serials(Tail(h, c, i))| && Serials(Tail(h, c, i))[k] == h[n].serial
    requires forall m | c < m < n :: SettledAt(h, m)
    ensures Applied(w, Sent(h, c, i)[..k]) == WireSet(Rrs(h[n - 1].rows))
  {
    BelowSerial(h, c, i, k, n);
    PrefixSettled(h, c, n, i, Serials(Tail(h, c, i))[..k]);
    var held := Applied(w, Sent(h, c, i)[..k]);
    forall x ensures x in held <==> x in WireSet(Rrs(h[n - 1].rows)) { PrefixAppliedAt(h, c, i, k, n, w, held, x); }
  }

  lemma SettledAfter(h: seq<State>, c: nat, m: nat, n: nat)
    requires IsRun(h) && c < m < n < |h| && SettledAt(h, m)
    ensures Settled(RowsOf(Tail(h, c, n - 1), h[m].serial))
  {
    RowsOfCommit(h, c, m, n - 1);
  }

  lemma NoRowsBefore(h: seq<State>, c: nat, n: nat, s: int)
    requires IsRun(h) && c < n < |h| && s <= h[c].serial
    ensures RowsOf(Tail(h, c, n - 1), s) == []
  {
    RunTail(h, c, n - 1);
    BetweenAllOrNone(Tail(h, c, n - 1), s - 1, s);
  }

  lemma SettledRows(h: seq<State>, c: nat, n: nat, s: int)
    requires IsRun(h) && c < n < |h| && s < h[n].serial
    requires forall m | c < m < n :: SettledAt(h, m)
    ensures Settled(RowsOf(Tail(h, c, n - 1), s))
  {
    RunSerial(h, c);
    RunSerial(h, n);
    if h[c].serial < s {
      var m := s - h[0].serial;
      RunSerial(h, m);
      SettledAfter(h, c, m, n);
    } else {
      NoRowsBefore(h, c, n, s);
    }
  }

  lemma PrefixSettled(h: seq<State>, c: nat, n: nat, i: nat, low: seq<int>)
    requires IsRun(h) && c < n <= i < |h|
    requires forall m | c < m < n :: SettledAt(h, m)
    requires forall s | s in low :: s < h[n].serial
    ensures AllSerialsSettled(low, Tail(h, c, n - 1))
  {
    forall s | s in low ensures Settled(RowsOf(Tail(h, c, n - 1), s)) { SettledRows(h, c, n, s); }
  }

  /** Step k carries the rows of its serial's commit. */
  lemma SentStep(h: seq<State>, c: nat, i: nat, k: nat, n: nat)
    requires IsRun(h) && c < n <= i < |h|
    requires k < |Serials(Tail(h, c, i))| && Serials(Tail(h, c, i))[k] == h[n].serial
    ensures Sent(h, c, i)[k].dels == Wires(Tail(h, n - 1, n), Deleted)
    ensures Sent(h, c, i)[k].adds == Wires(Tail(h, n - 1, n), Added)
  {
    RowsOfCommit(h, c, n, i);
    RunChained(h, c, i);
    assert Sent(h, c, i)[k] == DeltaAt(h[c].serial, Serials(Tail(h, c, i)), k, Tail(h, c, i),
                                       NearSnaps(h, c, i));
  }

  lemma CommitStrict(h: seq<State>, n: nat)
    requires IsRun(h) && 0 < n < |h|
    ensures Strict(WireSet(Rrs(h[n - 1].rows)), Wires(Tail(h, n - 1, n), Deleted), Wires(Tail(h, n - 1, n), Added))
            <==> CleanAt(h, n)
  {
    CommitPlay(h, n);
    History.RunKeys(h, n - 1);
    StrictExact(Rrs(h[n - 1].rows), Tail(h, n - 1, n));
  }

  ghost predicate StrictAt(w: set<WireRr>, ds: seq<Delta>, k: nat)
    requires k < |ds|
  { Strict(Applied(w, ds[..k]), ds[k].dels, ds[k].adds) }

  lemma StepStrict(h: seq<State>, c: nat, i: nat, k: nat, n: nat, w: set<WireRr>)
    requires IsRun(h) && c < n <= i < |h| && w == WireSet(Rrs(h[c].rows))
    requires k < |Serials(Tail(h, c, i))| && Serials(Tail(h, c, i))[k] == h[n].serial
    requires forall m | c < m < n :: SettledAt(h, m)
    ensures StrictAt(w, Sent(h, c, i), k) <==> CleanAt(h, n)
  {
    PrefixApplied(h, c, i, k, n, w);
    SentStep(h, c, i, k, n);
    CommitStrict(h, n);
  }

  lemma SerialPosition(h: seq<State>, c: nat, i: nat, n: nat) returns (k: nat)
    requires IsRun(h) && c < n <= i < |h| && Tail(h, n - 1, n) != []
    ensures k < |Serials(Tail(h, c, i))| && Serials(Tail(h, c, i))[k] == h[n].serial
  {
    RunTail(h, c, n - 1);
    CommitTail(h, n);
    RunTail(h, n, i);
    TailSplit(h, c, n - 1, n);
    TailSplit(h, c, n, i);
    var e := Tail(h, n - 1, n)[0];
    assert e in Tail(h, c, n);
    SerialsSpec(Tail(h, c, i));
    k :| k < |Serials(Tail(h, c, i))| && Serials(Tail(h, c, i))[k] == e.serial;
  }

  lemma CleanAllSettled(h: seq<State>, c: nat, n: nat)
    requires IsRun(h) && c < n <= |h| && forall m | c < m < n :: CleanAt(h, m)
    ensures forall m | c < m < n :: SettledAt(h, m)
  {
    forall m | c < m < n ensures SettledAt(h, m) {
      assert CleanAt(h, m);
      CleanIsSettled(h, m);
    }
  }

  lemma CleanIsStrict(h: seq<State>, c: nat, i: nat, w: set<WireRr>)
    requires IsRun(h) && c < i < |h| && w == WireSet(Rrs(h[c].rows)) && forall n | c < n < i + 1 :: CleanAt(h, n)
    ensures StrictSteps(w, Sent(h, c, i))
  {
    CleanAllSettled(h, c, i + 1);
    var ds := Sent(h, c, i);
    forall k | 0 <= k < |ds| ensures StrictAt(w, ds, k) {
      assert Serials(Tail(h, c, i))[k] in Serials(Tail(h, c, i));
      var n := SerialIndex(h, c, i, Serials(Tail(h, c, i))[k]);
      assert CleanAt(h, n);
      StepStrict(h, c, i, k, n, w);
    }
  }

  lemma StrictStepIsClean(h: seq<State>, c: nat, i: nat, n: nat, w: set<WireRr>)
    requires IsRun(h) && c < n <= i < |h| && w == WireSet(Rrs(h[c].rows)) && StrictSteps(w, Sent(h, c, i))
    requires forall m | c < m < n :: SettledAt(h, m)
    ensures CleanAt(h, n)
  {
    if Tail(h, n - 1, n) != [] {
      var k := SerialPosition(h, c, i, n);
      assert StrictAt(w, Sent(h, c, i), k);
      StepStrict(h, c, i, k, n, w);
    }
  }

  lemma {:induction false} StrictIsClean(h: seq<State>, c: nat, i: nat, n: nat, w: set<WireRr>)
    requires IsRun(h) && c < i < |h| && c <= n <= i && w == WireSet(Rrs(h[c].rows)) && StrictSteps(w, Sent(h, c, i))
    ensures forall m | c < m < n + 1 :: CleanAt(h, m)
    decreases n
  {
    if c < n {
      StrictIsClean(h, c, i, n - 1, w);
      CleanAllSettled(h, c, n);
      StrictStepIsClean(h, c, i, n, w);
    }
  }

  /** A secondary that insists every delete hits and every add is fresh accepts the
      whole reply exactly when no serial in it deletes a record it added earlier; it
      then ends with the current record set. */
  lemma StrictReplayExact(h: seq<State>, c: nat, i: nat)
    requires IsRun(h) && c < i < |h|
    ensures StrictSteps(WireSet(Rrs(h[c].rows)), Sent(h, c, i)) <==> forall n | c < n < i + 1 :: CleanAt(h, n)
    ensures StrictSteps(WireSet(Rrs(h[c].rows)), Sent(h, c, i)) ==>
              Applied(WireSet(Rrs(h[c].rows)), Sent(h, c, i)) == WireSet(Rrs(h[i].rows))
  {
    var w := WireSet(Rrs(h[c].rows));
    if forall n | c < n < i + 1 :: CleanAt(h, n) {
      CleanIsStrict(h, c, i, w);
      CleanAllSettled(h, c, i + 1);
      ReplayConverges(h, c, c, i);
    }
    if StrictSteps(w, Sent(h, c, i)) { StrictIsClean(h, c, i, i, w); }
  }

  // ---- One serial ----------------------------------------------------------------------

  lemma FirstTwo(q: seq<int>)
    requires Increasing(q)
    ensures |q| <= 1 || (q[0] < q[1] && q[0] in q && q[1] in q)
  {
  }

  lemma OneSerial(q: seq<int>, s: int)
    requires Increasing(q) && s in q && forall x | x in q :: x == s
    ensures q == [s]
  {
    FirstTwo(q);
    assert q[0] in q;
  }

  lemma SoleSerials(h: seq<State>, c: nat)
    requires IsRun(h) && c + 1 < |h| && Tail(h, c, c + 1) != []
    ensures Serials(Tail(h, c, c + 1)) == [h[c + 1].serial]
  {
    var log := Tail(h, c, c + 1);
    SerialsSpec(log);
    CommitTail(h, c + 1);
    assert log[0] in log;
    OneSerial(Serials(log), h[c + 1].serial);
  }

  /** A client one serial behind is sent one step: that serial's rows, regrouped. */
  lemma SingleStep(h: seq<State>, c: nat, w: set<WireRr>)
    requires IsRun(h) && c + 1 < |h| && Tail(h, c, c + 1) != []
    ensures |Sent(h, c, c + 1)| == 1
    ensures Applied(w, Sent(h, c, c + 1))
         == Regrouped(w, Wires(Tail(h, c, c + 1), Deleted), Wires(Tail(h, c, c + 1), Added))
  {
    SoleSerials(h, c);
    SentStep(h, c, c + 1, 0, c + 1);
    var ds := Sent(h, c, c + 1);
    assert ds[..0] == [];
  }

  /** That client ends with the committed records exactly when the serial is settled. */
  lemma SingleStepExact(h: seq<State>, c: nat)
    requires IsRun(h) && c + 1 < |h| && Tail(h, c, c + 1) != []
    ensures Applied(WireSet(Rrs(h[c].rows)), Sent(h, c, c + 1)) == WireSet(Rrs(h[c + 1].rows)) <==> SettledAt(h, c + 1)
  {
    SingleStep(h, c, WireSet(Rrs(h[c].rows)));
    CommitPlay(h, c + 1);
    History.RunKeys(h, c);
    RegroupExact(Rrs(h[c].rows), Tail(h, c, c + 1));
  }
}
