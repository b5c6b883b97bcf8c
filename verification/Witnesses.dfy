/** The failures on runs of the zone: an update whose serial no secondary can replay, and a
    rollback that does not restore the rows to the letter, both reached from zone creation. */
module Witnesses {
  import opened Records
  import opened Zone
  import opened Transaction
  import opened Replay
  import opened ZoneService
  import opened Transfer
  import opened DynamicUpdate
  import Cache
  import ExternalDns
  import History
  import Rollback
  import Store
  import UpdateScan

  /** A secondary one serial behind a committed message converges exactly when no record the
      message inserted is missing at its end. */
  lemma MessageReachesSecondary(h: seq<State>, s: State, ops: seq<UpdateOp>, tx: Tx)
    requires IsRun(h) && s == h[|h| - 1] && s.serial < MAX_SERIAL
    requires Message(s, ops) == Staged(tx) && tx.logged != []
    ensures IsRun(h + [Finish(s, tx, s.meta)])
    ensures Applied(WireSet(Rrs(s.rows)), Sent(h + [Finish(s, tx, s.meta)], |h| - 1, |h|)) == WireSet(Rrs(tx.rows))
            <==> !UpdateScan.LosesOwn(s.rows, ops)
  {
    MessageStep(h, s, ops, tx);
    var g := h + [Finish(s, tx, s.meta)];
    assert Tail(g, |h| - 1, |h|) == tx.logged;
    SingleStepExact(g, |h| - 1);
    assert g in SettledRuns() <==> SettledAt(g, |h|);
  }

  /** Adding a record and deleting it in one message commits the zone's records unchanged, and
      leaves every secondary that replays the serial with the record. */
  lemma AddThenDeleteRun(h: seq<State>, s: State, rr: Rr) returns (tx: Tx)
    requires IsRun(h) && s == h[|h| - 1] && s.serial < MAX_SERIAL
    requires Admits(s.rows, rr, None) && !IsPrimaryNs(s.meta, rr) && (rr.priority.Some? <==> HasPriority(rr.rtype))
    ensures Message(s, AddThenDelete(rr)) == Staged(tx) && IsRun(h + [Finish(s, tx, s.meta)])
    ensures Rrs(tx.rows) == Rrs(s.rows) && Wire(rr) !in WireSet(Rrs(s.rows))
    ensures Applied(WireSet(Rrs(s.rows)), Sent(h + [Finish(s, tx, s.meta)], |h| - 1, |h|))
         == WireSet(Rrs(s.rows)) + {Wire(rr)}
  {
    RunValid(h, |h| - 1);
    BeginOk(s);
    tx := AddThenDeleteDiverges(s, rr);
    MessageStep(h, s, AddThenDelete(rr), tx);
    CommittedStep(h, s, tx, WireSet(Rrs(s.rows)));
  }

  /** What a secondary one serial behind a commit is left with. */
  lemma CommittedStep(h: seq<State>, s: State, tx: Tx, w: set<WireRr>)
    requires h != [] && s == h[|h| - 1] && IsRun(h + [Finish(s, tx, s.meta)]) && tx.logged != []
    ensures Applied(w, Sent(h + [Finish(s, tx, s.meta)], |h| - 1, |h|))
         == Regrouped(w, Wires(tx.logged, Deleted), Wires(tx.logged, Added))
  {
    var g := h + [Finish(s, tx, s.meta)];
    assert Tail(g, |h| - 1, |h|) == tx.logged;
    SingleStep(g, |h| - 1, w);
  }

  // ---- From zone creation ---------------------------------------------------------------------

  function NewZone(m: Meta): State {
    State(m, 1, [Row(1, PrimaryNsRr(m, m.ttl))], 2, [], map[1 := SnapshotOf(m)])
  }

  function SomeA(m: Meta): Rr { Rr(["www"], A, Value("192.0.2.1", "192.0.2.1", {A}), m.ttl, None) }

  function SomeMx(m: Meta, priority: Option<int>): Rr { Rr(["www"], MX, Value("mail", "mail", {MX}), m.ttl, priority) }

  lemma FitsNewZone(m: Meta, rr: Rr)
    requires MetaOk(m) && RrOk(rr) && rr.owner != []
    ensures Admits(NewZone(m).rows, rr, None)
  {
  }

  /** In every new zone the two-operation message is accepted, and its serial does not replay. */
  lemma NewZoneDiverges(m: Meta) returns (g: seq<State>)
    requires MetaOk(m)
    ensures IsRun(g) && |g| == 2 && g[0] == NewZone(m)
    ensures Applied(WireSet(Rrs(g[0].rows)), Sent(g, 0, 1)) != WireSet(Rrs(g[1].rows))
  {
    var s, rr := NewZone(m), SomeA(m);
    Store.CreatedRun(m, 1);
    FitsNewZone(m, rr);
    var tx := AddThenDeleteRun([s], s, rr);
    g := [s] + [Finish(s, tx, m)];
    assert Wire(rr) in Applied(WireSet(Rrs(g[0].rows)), Sent(g, 0, 1));
  }

  /** Writing the default priority into an empty priority column keeps the record's identity and
      TTL: the update is accepted, and the new row spells the old record differently. */
  lemma RespelledUpdate(h: seq<State>, s: State, i: nat)
    requires IsRun(h) && s == h[|h| - 1] && s.serial < MAX_SERIAL && i < |s.rows|
    requires s.rows[i].rr.rtype == MX && s.rows[i].rr.priority == None
    ensures var rr := s.rows[i].rr.(priority := Some(DEFAULT_PRIORITY));
            var t := Finish(s, Replace(Begin(s), s.serial + 1, i, rr), s.meta);
            h + [t] in CleanRuns() && Rollback.Respelled(t.rows, Rrs(s.rows))
  {
    var was, rr := s.rows[i].rr, s.rows[i].rr.(priority := Some(DEFAULT_PRIORITY));
    var t := Finish(s, Replace(Begin(s), s.serial + 1, i, rr), s.meta);
    RunValid(h, |h| - 1);
    SameWireAdmitted(s, i, rr);
    UpdateStep(h, s, i, rr);
    assert was in Rrs(s.rows) by { assert s.rows[i] in s.rows; }
    assert t.rows[i] in t.rows && Wire(t.rows[i].rr) == Wire(was) && t.rows[i].rr != was;
  }

  lemma SameWireAdmitted(s: State, i: nat, rr: Rr)
    requires ValidState(s) && i < |s.rows| && RrOk(rr) && Wire(rr) == Wire(s.rows[i].rr)
    ensures ValidateAdd(SameOwner(s.rows, rr.owner), rr, Some(s.rows[i].id)) == None
  {
    assert WellFormed(s) && Consistent(s.rows);
    forall e | e in s.rows && e.id != s.rows[i].id ensures Compatible(Wire(e.rr), Wire(rr)) {
      var j :| 0 <= j < |s.rows| && s.rows[j] == e;
      assert j < i ==> PairOk(s.rows, j, i);
      assert i < j ==> PairOk(s.rows, i, j);
    }
    ValidateAddExact(SameOwner(s.rows, rr.owner), rr, Some(s.rows[i].id));
  }

  /** A reachable zone whose rollback to the serial before leaves a row spelled as it is now. */
  lemma RespelledRun(m: Meta) returns (g: seq<State>)
    requires MetaOk(m)
    ensures IsRun(g) && |g| == 3 && g[0] == NewZone(m)
    ensures Rollback.Respelled(g[2].rows, Rrs(g[1].rows))
  {
    var s, rr := NewZone(m), SomeMx(m, None);
    NewZoneGrows(m, rr);
    var t := Finish(s, Insert(Begin(s), 2, [rr]), m);
    RespelledUpdate([s] + [t], t, 1);
    g := [s] + [t] + [Finish(t, Replace(Begin(t), t.serial + 1, 1, rr.(priority := Some(DEFAULT_PRIORITY))), t.meta)];
  }

  /** Between a new zone's creation and its first insert a transfer can leave the rows of the
      second serial in the cache under the first. */
  lemma StaleNewZone(m: Meta, z: Cache.ZoneId) returns (ws: seq<Cache.World>)
    requires MetaOk(m)
    ensures Cache.IsTrace(ws)
    ensures var w := ws[|ws| - 1];
            && z in w.zones && |w.zones[z]| == 2 && w.zones[z][0] == NewZone(m)
            && Cache.Hit(w.cache, z, NewZone(m).serial) == Some(w.zones[z][1].rows)
            && w.zones[z][1].rows != NewZone(m).rows
  {
    var a, rr := NewZone(m), SomeA(m);
    NewZoneGrows(m, rr);
    Store.CreatedRun(m, 1);
    var b := Finish(a, Insert(Begin(a), 2, [rr]), m);
    assert [a] + [b] == [a, b];
    ws := Cache.StaleTag(z, a, b);
  }

  /** The delete that names a record as the server serves it, with its priority. */
  function ServedDelete(rr: Rr): UpdateOp
    requires HasPriority(rr.rtype)
  { DeleteRr(rr.owner, rr.rtype, rr.value, Some(Pref(rr.rtype, rr.priority))) }

  /** A message that deletes an MX or SRV record with an empty priority column, as the server
      serves it, is accepted and changes nothing. */
  lemma EmptyColumnStays(s: State, rr: Rr)
    requires ValidState(s) && rr in Rrs(s.rows) && HasPriority(rr.rtype) && rr.priority == None
    ensures UpdateScan.NamedBy(ServedDelete(rr)) == KeyOf(rr)
    ensures Message(s, [ServedDelete(rr)]) == Staged(Begin(s))
  {
    var op := ServedDelete(rr);
    History.CoherentKeys(s.rows) by { assert WellFormed(s); }
    forall r | r in s.rows ensures !Matches(op, r.rr) {
      assert r.rr in Rrs(s.rows);
      assert Matches(op, r.rr) ==> KeyOf(r.rr) == KeyOf(rr);
    }
    NoMatchQuiet(s, op);
  }

  lemma NoMatchQuiet(s: State, op: UpdateOp)
    requires !op.AddRr? && forall r | r in s.rows :: !Matches(op, r.rr)
    ensures Message(s, [op]) == Staged(Begin(s))
  {
    ExternalDns.SomeMember(Matched(op, s.rows));
    assert ApplyOp(s.meta, Begin(s), s.serial + 1, op) == Staged(Begin(s));
    assert [op][..0] == [];
    assert ApplyOps(s.meta, Begin(s), s.serial + 1, []) == Staged(Begin(s));
  }

  /** A reachable zone with such a record. */
  lemma UndeletableMx(m: Meta) returns (g: seq<State>)
    requires MetaOk(m)
    ensures IsRun(g) && |g| == 2 && g[0] == NewZone(m) && SomeMx(m, None) in Rrs(g[1].rows)
    ensures Message(g[1], [ServedDelete(SomeMx(m, None))]) == Staged(Begin(g[1]))
  {
    var s, mx := NewZone(m), SomeMx(m, None);
    NewZoneGrows(m, mx);
    g := [s] + [Finish(s, Insert(Begin(s), 2, [mx]), m)];
    RunValid(g, 1);
    assert g[1].rows[1] in g[1].rows;
    EmptyColumnStays(g[1], mx);
  }

  lemma NewZoneGrows(m: Meta, rr: Rr)
    requires MetaOk(m) && RrOk(rr) && rr.owner != []
    ensures var t := Finish(NewZone(m), Insert(Begin(NewZone(m)), 2, [rr]), m);
            IsRun([NewZone(m)] + [t]) && |t.rows| == 2 && t.rows[1].rr == rr
  {
    var s := NewZone(m);
    Store.CreatedRun(m, 1);
    FitsNewZone(m, rr);
    RunValid([s], 0);
    assert WellFormed(s);
    CoherentGrows(s.rows, Row(s.nextId, rr));
    assert Numbered([rr], s.nextId) == [Row(s.nextId, rr)];
    BulkStep([s], s, [rr]);
  }
}
