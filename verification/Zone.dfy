/** The versioned zone: its tables, the meaning of its change log, and what one
    committed transaction may do to them. A run is the list of a zone's committed
    states, one per serial. */
module Zone {
  import opened Records
  import Mailbox

  /** Zone metadata the SOA is built from; the email is held as its two sides. */
  datatype Meta = Meta(primaryNs: Value, mailLocal: string, mailDomain: string,
                       ttl: int, refresh: int, retry: int, expire: int, minimum: int)

  /** One `zone_soa_history` row: the metadata with the email encoded as a mailbox. */
  datatype Snapshot = Snapshot(primaryNs: Value, mailbox: string,
                               ttl: int, refresh: int, retry: int, expire: int, minimum: int)

  datatype LogOp = Added | Deleted

  /** One `zone_changes` row. SOA rows record metadata transitions. */
  datatype LogRow =
    | SoaLog(serial: int, op: LogOp, meta: Meta, soaSerial: int)
    | RrLog(serial: int, op: LogOp, rr: Rr)

  /** The tables of one zone. */
  datatype State = State(meta: Meta, serial: int, rows: seq<Row>, nextId: int,
                         log: seq<LogRow>, snaps: map<int, Snapshot>)

  const MAX_SERIAL := 0x7FFF_FFFF
  const RESERVED_SERIAL_HEADROOM := 10_000_000
  const MAX_INITIAL_SERIAL := MAX_SERIAL - RESERVED_SERIAL_HEADROOM
  const MIN_TTL := 60
  const MAX_TTL := 604_800

  /** `generate_serial` on an existing zone: the next serial, refused at the ceiling. */
  function NextSerial(serial: int): Option<int> {
    if serial == MAX_SERIAL then None else Some(serial + 1)
  }

  /** What `validate_create_zone_request` and `resolve_soa_timers` accept. */
  predicate MetaOk(m: Meta) {
    && NS in m.primaryNs.grammars
    && m.mailLocal != "" && m.mailDomain != "" && m.mailDomain[|m.mailDomain| - 1] != '.'
    && MIN_TTL <= m.ttl <= MAX_TTL
    && m.refresh > 0 && m.retry > 0 && m.expire > 0 && m.minimum > 0
  }

  function SnapshotOf(m: Meta): Snapshot {
    Snapshot(m.primaryNs, Mailbox.FromEmail(m.mailLocal, m.mailDomain),
             m.ttl, m.refresh, m.retry, m.expire, m.minimum)
  }

  /** `restored_zone_from_snapshot`; `None` when the mailbox does not decode. */
  function Restored(s: Snapshot): Option<Meta> {
    match Mailbox.ToEmail(s.mailbox)
    case Some((l, d)) => Some(Meta(s.primaryNs, l, d, s.ttl, s.refresh, s.retry, s.expire, s.minimum))
    case None => None
  }

  lemma RestoredSnapshot(m: Meta)
    requires MetaOk(m)
    ensures Restored(SnapshotOf(m)) == Some(m)
  {
    Mailbox.RoundTrip(m.mailLocal, m.mailDomain);
  }

  /** The apex NS record the zone's `primary_ns` names. */
  predicate IsPrimaryNs(m: Meta, rr: Rr) {
    rr.rtype == NS && rr.owner == [] && rr.value.canon == m.primaryNs.canon
  }

  function PrimaryNsRr(m: Meta, ttl: int): Rr { Rr([], NS, m.primaryNs, ttl, None) }

  /** `validate_delete_constraints` on one record, negated. */
  predicate Protected(m: Meta, rr: Rr) { rr.rtype == SOA || IsPrimaryNs(m, rr) }

  ghost predicate ServesPrimary(m: Meta, s: set<Rr>) { Served(m, s) == true }

  ghost predicate Served(m: Meta, s: set<Rr>) { exists rr | rr in s :: IsPrimaryNs(m, rr) }

  ghost predicate UniqueIds(rows: seq<Row>) {
    forall i, j | 0 <= i < j < |rows| :: rows[i].id != rows[j].id
  }

  /** Well-formedness of a committed zone. */
  ghost predicate ValidState(s: State) { WellFormed(s) == true }

  ghost predicate WellFormed(s: State) {
    && Coherent(s.rows)
    && UniqueIds(s.rows)
    && (forall r | r in s.rows :: 0 < r.id < s.nextId)
    && 0 < s.nextId
    && MetaOk(s.meta)
    && ServesPrimary(s.meta, Rrs(s.rows))
    && 1 <= s.serial <= MAX_SERIAL
  }

  // ---- What log rows mean -------------------------------------------------

  ghost predicate KeyUnique(s: set<Rr>) { forall a, b | a in s && b in s && KeyOf(a) == KeyOf(b) :: a == b }

  ghost predicate KeyFree(s: set<Rr>, k: Key) { forall a | a in s :: KeyOf(a) != k }

  ghost function Apply(s: set<Rr>, e: LogRow): set<Rr> {
    match e
    case SoaLog(_, _, _, _) => s
    case RrLog(_, Added, rr) => s + {rr}
    case RrLog(_, Deleted, rr) => s - {rr}
  }

  /** An ADD brings a fresh identity, a DEL names a record that is there. */
  ghost predicate Fits(s: set<Rr>, e: LogRow) {
    match e
    case SoaLog(_, _, _, _) => true
    case RrLog(_, Added, rr) => KeyFree(s, KeyOf(rr))
    case RrLog(_, Deleted, rr) => rr in s
  }

  ghost function Play(s: set<Rr>, log: seq<LogRow>): set<Rr> {
    if log == [] then s else Apply(Play(s, log[..|log| - 1]), log[|log| - 1])
  }

  ghost predicate Legal(s: set<Rr>, log: seq<LogRow>) {
    log == [] || (Legal(s, log[..|log| - 1]) && Fits(Play(s, log[..|log| - 1]), log[|log| - 1]))
  }

  lemma {:induction false} PlayAppend(s: set<Rr>, a: seq<LogRow>, b: seq<LogRow>)
    ensures Play(s, a + b) == Play(Play(s, a), b)
    ensures Legal(s, a + b) <==> Legal(s, a) && Legal(Play(s, a), b)
    decreases |b|
  {
    if b == [] {
      assert a + b == a;
    } else {
      var n := |b| - 1;
      assert (a + b)[..|a + b| - 1] == a + b[..n];
      PlayAppend(s, a, b[..n]);
    }
  }

  lemma {:induction false} PlayKeyUnique(s: set<Rr>, log: seq<LogRow>)
    requires KeyUnique(s) && Legal(s, log)
    ensures KeyUnique(Play(s, log))
  {
    if log != [] { PlayKeyUnique(s, log[..|log| - 1]); }
  }

  function Logged(serial: int, op: LogOp, rrs: seq<Rr>): (out: seq<LogRow>)
    ensures |out| == |rrs|
    ensures forall i | 0 <= i < |rrs| :: out[i] == RrLog(serial, op, rrs[i])
  {
    seq(|rrs|, i requires 0 <= i < |rrs| => RrLog(serial, op, rrs[i]))
  }

  lemma {:induction false} PlayDeletes(s: set<Rr>, serial: int, rrs: seq<Rr>)
    requires forall rr | rr in rrs :: rr in s
    requires forall i, j | 0 <= i < j < |rrs| :: rrs[i] != rrs[j]
    ensures Legal(s, Logged(serial, Deleted, rrs))
    ensures Play(s, Logged(serial, Deleted, rrs)) == s - RrSet(rrs)
  {
    if rrs != [] {
      var n := |rrs| - 1;
      PlayDeletes(s, serial, rrs[..n]);
      LoggedGrows(serial, Deleted, rrs);
      assert rrs[n] !in RrSet(rrs[..n]);
    }
  }

  lemma LoggedGrows(serial: int, op: LogOp, rrs: seq<Rr>)
    requires rrs != []
    ensures Logged(serial, op, rrs)[..|rrs| - 1] == Logged(serial, op, rrs[..|rrs| - 1])
    ensures RrSet(rrs) == RrSet(rrs[..|rrs| - 1]) + {rrs[|rrs| - 1]}
  {
    assert rrs == rrs[..|rrs| - 1] + [rrs[|rrs| - 1]];
  }

  lemma {:induction false} PlayAdds(s: set<Rr>, serial: int, rrs: seq<Rr>)
    requires forall rr | rr in rrs :: KeyFree(s, KeyOf(rr))
    requires forall i, j | 0 <= i < j < |rrs| :: KeyOf(rrs[i]) != KeyOf(rrs[j])
    ensures Legal(s, Logged(serial, Added, rrs))
    ensures Play(s, Logged(serial, Added, rrs)) == s + RrSet(rrs)
  {
    if rrs != [] {
      var n := |rrs| - 1;
      PlayAdds(s, serial, rrs[..n]);
      LoggedGrows(serial, Added, rrs);
      assert KeyFree(s + RrSet(rrs[..n]), KeyOf(rrs[n])) by {
        assert KeyFree(s, KeyOf(rrs[n]));
        forall a | a in RrSet(rrs[..n]) ensures KeyOf(a) != KeyOf(rrs[n]) { var i :| 0 <= i < n && rrs[i] == a; }
      }
    }
  }

  // ---- Committed transactions ---------------------------------------------

  ghost function NewRows(s: State, s': State): seq<LogRow>
    requires |s.log| <= |s'.log|
  { s'.log[|s.log|..] }

  /** What every committed transaction does: one serial bump, one snapshot, log
      rows appended under the new serial that explain the change of the record
      set, nothing logged only if nothing changed, and a well-formed zone. */
  ghost predicate Commit(s: State, s': State) { Committed(s, s') == true }

  ghost predicate Committed(s: State, s': State) {
    && s'.serial == s.serial + 1
    && s'.snaps == s.snaps[s'.serial := SnapshotOf(s'.meta)]
    && s.log <= s'.log
    && (forall e | e in NewRows(s, s') :: e.serial == s'.serial)
    && Legal(Rrs(s.rows), NewRows(s, s'))
    && Play(Rrs(s.rows), NewRows(s, s')) == Rrs(s'.rows)
    && (NewRows(s, s') == [] ==> s'.meta == s.meta)
    && ValidState(s')
  }

  /** A freshly created zone: the apex NS row, unlogged, and the first snapshot. */
  ghost predicate Created(s: State) {
    && ValidState(s)
    && s.log == []
    && s.snaps == map[s.serial := SnapshotOf(s.meta)]
  }

  /** State i is the created zone, or one commit after state i - 1. */
  ghost predicate StepAt(h: seq<State>, i: nat)
    requires i < |h|
  { if i == 0 then Created(h[0]) else Commit(h[i - 1], h[i]) }

  ghost predicate Follows(h: seq<State>) { 0 < |h| && forall i | 0 <= i < |h| :: StepAt(h, i) }

  /** A run: nonempty, each state following from the one before. Written as an equation so
      that the verifier takes the definition apart only where a proof asks for it. */
  ghost predicate IsRun(h: seq<State>) { Follows(h) == true }

  /** Serials never repeat: the state at index i has serial first + i, inside i32. */
  lemma {:induction false} RunSerial(h: seq<State>, i: nat)
    requires IsRun(h) && i < |h|
    ensures h[i].serial == h[0].serial + i
    ensures 1 <= h[0].serial <= h[i].serial <= MAX_SERIAL
    decreases i
  {
    assert StepAt(h, 0);
    assert StepAt(h, i);
    if i > 0 { RunSerial(h, i - 1); }
  }

  /** Every reachable zone is well formed. */
  lemma RunValid(h: seq<State>, i: nat)
    requires IsRun(h) && i < |h|
    ensures ValidState(h[i])
  {
    assert StepAt(h, i);
  }

  /** A run started from a validated initial serial is not stopped by the serial
      ceiling during its first ten million commits. */
  lemma {:induction false} Headroom(h: seq<State>)
    requires IsRun(h) && h[0].serial <= MAX_INITIAL_SERIAL
    ensures |h| <= RESERVED_SERIAL_HEADROOM ==> NextSerial(h[|h| - 1].serial).Some?
  {
    RunSerial(h, |h| - 1);
  }

  lemma RunExtend(h: seq<State>, s: State)
    requires IsRun(h) && Commit(h[|h| - 1], s)
    ensures IsRun(h + [s])
  {
    var g := h + [s];
    forall i | 0 <= i < |g| ensures StepAt(g, i) {
      if i < |h| { assert StepAt(h, i); }
    }
  }

  lemma Tails<T>(a: seq<T>, b: seq<T>, c: seq<T>)
    requires a <= b <= c
    ensures a <= c
    ensures c[|a|..] == b[|a|..] + c[|b|..]
  {
  }

  /** The log only grows. */
  lemma {:induction false} RunGrows(h: seq<State>, i: nat, j: nat)
    requires IsRun(h) && i <= j < |h|
    ensures h[i].log <= h[j].log
    decreases j - i
  {
    if i < j {
      RunGrows(h, i, j - 1);
      assert StepAt(h, j);
    }
  }

  /** The log rows written after state i, up to state j. */
  ghost function Tail(h: seq<State>, i: nat, j: nat): seq<LogRow>
    requires IsRun(h) && i <= j < |h|
  {
    RunGrows(h, i, j);
    h[j].log[|h[i].log|..]
  }

  lemma TailSplit(h: seq<State>, i: nat, j: nat, k: nat)
    requires IsRun(h) && i <= j <= k < |h|
    ensures Tail(h, i, k) == Tail(h, i, j) + Tail(h, j, k)
  {
    RunGrows(h, i, j);
    RunGrows(h, j, k);
    Tails(h[i].log, h[j].log, h[k].log);
  }

  /** Rows written between two committed states carry the serials in between. */
  lemma {:induction false} RunTail(h: seq<State>, i: nat, j: nat)
    requires IsRun(h) && i <= j < |h|
    ensures forall e | e in Tail(h, i, j) :: h[i].serial < e.serial <= h[j].serial
    decreases j - i
  {
    if i < j {
      RunTail(h, i, j - 1);
      CommitTail(h, j);
      TailSplit(h, i, j - 1, j);
      RunSerial(h, i);
      RunSerial(h, j);
    }
  }

  lemma CommitTail(h: seq<State>, j: nat)
    requires IsRun(h) && 0 < j < |h|
    ensures forall e | e in Tail(h, j - 1, j) :: e.serial == h[j].serial
    ensures h[j].serial == h[j - 1].serial + 1
  {
    assert StepAt(h, j);
  }

  /** The rows written in between explain the whole change of the record set. */
  lemma {:induction false} RunPlay(h: seq<State>, i: nat, j: nat)
    requires IsRun(h) && i <= j < |h|
    ensures Legal(Rrs(h[i].rows), Tail(h, i, j))
    ensures Play(Rrs(h[i].rows), Tail(h, i, j)) == Rrs(h[j].rows)
    decreases j - i
  {
    if i == j {
      assert Tail(h, i, j) == [];
    } else {
      RunPlay(h, i, j - 1);
      CommitPlay(h, j);
      TailSplit(h, i, j - 1, j);
      PlayAppend(Rrs(h[i].rows), Tail(h, i, j - 1), Tail(h, j - 1, j));
    }
  }

  lemma CommitPlay(h: seq<State>, j: nat)
    requires IsRun(h) && 0 < j < |h|
    ensures Legal(Rrs(h[j - 1].rows), Tail(h, j - 1, j))
    ensures Play(Rrs(h[j - 1].rows), Tail(h, j - 1, j)) == Rrs(h[j].rows)
  {
    assert StepAt(h, j);
  }

  /** Snapshots exist for exactly the serials of the run and hold each state's metadata. */
  lemma {:induction false} RunSnapshots(h: seq<State>, j: nat, k: int)
    requires IsRun(h) && j < |h|
    ensures k in h[j].snaps <==> h[0].serial <= k <= h[0].serial + j
    ensures k in h[j].snaps ==> h[j].snaps[k] == SnapshotOf(h[k - h[0].serial].meta)
    decreases j
  {
    assert StepAt(h, j);
    RunSerial(h, j);
    if j > 0 { RunSnapshots(h, j - 1, k); }
  }

  /** The log range read `(from, to]`, in log order. */
  function Between(log: seq<LogRow>, from: int, to: int): (out: seq<LogRow>) {
    if log == [] then []
    else Between(log[..|log| - 1], from, to)
         + (if from < log[|log| - 1].serial <= to then [log[|log| - 1]] else [])
  }

  lemma {:induction false} BetweenSplit(a: seq<LogRow>, b: seq<LogRow>, from: int, to: int)
    ensures Between(a + b, from, to) == Between(a, from, to) + Between(b, from, to)
    decreases |b|
  {
    if b == [] {
      assert a + b == a;
    } else {
      var n := |b| - 1;
      assert (a + b)[..|a + b| - 1] == a + b[..n];
      BetweenSplit(a, b[..n], from, to);
    }
  }

  lemma {:induction false} BetweenAllOrNone(log: seq<LogRow>, from: int, to: int)
    ensures (forall e | e in log :: from < e.serial <= to) ==> Between(log, from, to) == log
    ensures (forall e | e in log :: !(from < e.serial <= to)) ==> Between(log, from, to) == []
  {
    if log != [] {
      BetweenAllOrNone(log[..|log| - 1], from, to);
      assert log[|log| - 1] in log;
    }
  }

  lemma BetweenSandwich(pre: seq<LogRow>, mid: seq<LogRow>, post: seq<LogRow>, from: int, to: int)
    requires forall e | e in pre :: e.serial <= from
    requires forall e | e in mid :: from < e.serial <= to
    requires forall e | e in post :: to < e.serial
    ensures Between(pre + mid + post, from, to) == mid
  {
    BetweenSplit(pre + mid, post, from, to);
    BetweenSplit(pre, mid, from, to);
    BetweenAllOrNone(pre, from, to);
    BetweenAllOrNone(mid, from, to);
    BetweenAllOrNone(post, from, to);
  }

  /** Reading `(serial i, serial j]` at any later state yields exactly the rows
      committed after state i up to state j. */
  lemma RunBetween(h: seq<State>, i: nat, j: nat, k: nat)
    requires IsRun(h) && i <= j <= k < |h|
    ensures Between(h[k].log, h[i].serial, h[j].serial) == Tail(h, i, j)
  {
    RunTail(h, 0, i);
    RunTail(h, i, j);
    RunTail(h, j, k);
    assert h[0].log == [] by { assert StepAt(h, 0); }
    assert h[k].log == Tail(h, 0, k);
    TailSplit(h, 0, j, k);
    TailSplit(h, 0, i, j);
    BetweenSandwich(Tail(h, 0, i), Tail(h, i, j), Tail(h, j, k), h[i].serial, h[j].serial);
  }
}
