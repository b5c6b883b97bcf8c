/** Resolving an ExternalDNS change request against one zone's rows
    (external_dns/apply.rs): which rows to delete and which records to create. */
module ExternalDns {
  import opened Records
  import opened Zone
  import opened Transaction
  import opened Batch
  import History

  datatype RrsetOp = RrsetOp(owner: Owner, rtype: RType, ttl: Option<int>, values: seq<Value>)

  datatype ZoneOps = ZoneOps(adds: seq<RrsetOp>, dels: seq<RrsetOp>)

  /** Rows to delete and records to create. */
  datatype Plan = Plan(deletes: seq<Row>, creates: seq<Rr>)

  datatype Outcome = Resolved(plan: Plan) | Rejected(error: AddError)

  /** `EXTERNAL_DNS_RECORD_TYPES`; the request conversion refuses any other type. */
  predicate Supported(t: RType) { t == A || t == AAAA || t == CNAME || t == TXT }

  predicate SupportedOps(ops: ZoneOps) { forall op | op in ops.adds + ops.dels :: Supported(op.rtype) }

  function OpRr(op: RrsetOp, v: Value, zoneTtl: int): Rr {
    Rr(op.owner, op.rtype, v, if op.ttl.Some? then op.ttl.value else zoneTtl, None)
  }

  function OpRrs(op: RrsetOp, zoneTtl: int): (out: seq<Rr>)
    ensures |out| == |op.values| && forall i | 0 <= i < |out| :: out[i] == OpRr(op, op.values[i], zoneTtl)
  { seq(|op.values|, i requires 0 <= i < |op.values| => OpRr(op, op.values[i], zoneTtl)) }

  /** The records of a list of operations, one per value, in request order. */
  function Items(ops: seq<RrsetOp>, zoneTtl: int): seq<Rr> {
    if ops == [] then [] else Items(ops[..|ops| - 1], zoneTtl) + OpRrs(ops[|ops| - 1], zoneTtl)
  }

  // ---- The plan ---------------------------------------------------------------------

  /** Mark every row of the key for deletion, unless already marked. */
  function Mark(existing: seq<Row>, k: Key, deletes: seq<Row>): seq<Row> {
    if existing == [] then deletes
    else
      var row, marked := existing[|existing| - 1], Mark(existing[..|existing| - 1], k, deletes);
      if KeyOf(row.rr) == k && row.id !in Ids(marked) then marked + [row] else marked
  }

  function MarkAll(existing: seq<Row>, items: seq<Rr>): seq<Row> {
    if items == [] then []
    else Mark(existing, KeyOf(items[|items| - 1]), MarkAll(existing, items[..|items| - 1]))
  }

  /** The first delete of exactly this record, if any. */
  function FindDelete(deletes: seq<Row>, w: WireRr): (r: Option<nat>)
    ensures r.Some? ==> r.value < |deletes| && Wire(deletes[r.value].rr) == w
    ensures r.None? ==> forall d | d in deletes :: Wire(d.rr) != w
  {
    if deletes == [] then None
    else if Wire(deletes[0].rr) == w then Some(0)
    else match FindDelete(deletes[1..], w) case None => None case Some(i) => Some(i + 1)
  }

  /** One add: cancel its own delete, find it already there, find it already created, or create it. */
  function Offer(existing: seq<Row>, p: Plan, item: Rr): Plan {
    match FindDelete(p.deletes, Wire(item))
    case Some(i) => p.(deletes := p.deletes[..i] + p.deletes[i + 1..])
    case None =>
      if exists row | row in existing :: row.id !in Ids(p.deletes) && KeyOf(row.rr) == KeyOf(item) then p
      else if exists c | c in p.creates :: Wire(c) == Wire(item) then p
      else p.(creates := p.creates + [item])
  }

  function OfferAll(existing: seq<Row>, p: Plan, items: seq<Rr>): Plan {
    if items == [] then p else Offer(existing, OfferAll(existing, p, items[..|items| - 1]), items[|items| - 1])
  }

  function PlanOf(existing: seq<Row>, dels: seq<Rr>, adds: seq<Rr>): Plan {
    OfferAll(existing, Plan(MarkAll(existing, dels), []), adds)
  }

  /** `compute_zone_change_set`. */
  function Compute(zoneTtl: int, existing: seq<Row>, ops: ZoneOps): Outcome {
    var p := PlanOf(existing, Items(ops.dels, zoneTtl), Items(ops.adds, zoneTtl));
    var errors := AddErrors(Without(existing, Ids(p.deletes)), p.creates);
    if errors == [] then Resolved(p) else Rejected(errors[0])
  }

  // ---- What the plan contains ----------------------------------------------------------

  ghost function Keys(items: seq<Rr>): set<Key> { set x | x in items :: KeyOf(x) }

  ghost function Exacts(items: seq<Rr>): set<WireRr> { set x | x in items :: Wire(x) }

  lemma ItemsGrow(items: seq<Rr>)
    requires items != []
    ensures Keys(items) == Keys(items[..|items| - 1]) + {KeyOf(items[|items| - 1])}
    ensures Exacts(items) == Exacts(items[..|items| - 1]) + {Wire(items[|items| - 1])}
  {
    assert items == items[..|items| - 1] + [items[|items| - 1]];
  }

  /** An id, or an identity, names at most one row. */
  ghost predicate Sound(rows: seq<Row>) {
    forall a, b | a in rows && b in rows :: a.id == b.id || KeyOf(a.rr) == KeyOf(b.rr) ==> a == b
  }

  ghost predicate GoodRows(rows: seq<Row>) { Coherent(rows) && UniqueIds(rows) }

  lemma GoodIsSound(rows: seq<Row>)
    requires GoodRows(rows)
    ensures Sound(rows)
  {
    forall a, b | a in rows && b in rows && (a.id == b.id || KeyOf(a.rr) == KeyOf(b.rr)) ensures a == b {
      SameRow(rows, a, b);
    }
  }

  /** Listed rows of the table, each once. */
  ghost predicate Listed(list: seq<Row>, rows: seq<Row>) {
    && (forall d | d in list :: d in rows)
    && (forall i, j | 0 <= i < j < |list| :: list[i].id != list[j].id)
  }

  lemma IdListed(rows: seq<Row>, list: seq<Row>, row: Row)
    requires Sound(rows) && Listed(list, rows) && row in rows
    ensures row.id in Ids(list) <==> row in list
  {
    if row.id in Ids(list) {
      var d :| d in list && d.id == row.id;
    }
  }

  lemma {:induction false} MarkSpec(rows: seq<Row>, existing: seq<Row>, k: Key, deletes: seq<Row>)
    requires Sound(rows) && (forall r | r in existing :: r in rows) && Listed(deletes, rows)
    ensures Listed(Mark(existing, k, deletes), rows)
    ensures forall r :: r in Mark(existing, k, deletes) <==> r in deletes || (r in existing && KeyOf(r.rr) == k)
    decreases |existing|
  {
    if existing != [] {
      var n := |existing| - 1;
      assert existing == existing[..n] + [existing[n]];
      MarkSpec(rows, existing[..n], k, deletes);
      IdListed(rows, Mark(existing[..n], k, deletes), existing[n]);
    }
  }

  lemma {:induction false} MarkAllSpec(rows: seq<Row>, items: seq<Rr>)
    requires Sound(rows)
    ensures Listed(MarkAll(rows, items), rows)
    ensures forall r :: r in MarkAll(rows, items) <==> r in rows && KeyOf(r.rr) in Keys(items)
  {
    if items != [] {
      var n := |items| - 1;
      MarkAllSpec(rows, items[..n]);
      MarkSpec(rows, rows, KeyOf(items[n]), MarkAll(rows, items[..n]));
      ItemsGrow(items);
    }
  }

  /** After the adds so far, the rows still marked are those of a deleted key whose exact
      record no add has named. */
  ghost predicate Marks(rows: seq<Row>, dels: seq<Rr>, adds: seq<Rr>, deletes: seq<Row>) {
    && Listed(deletes, rows)
    && forall r :: r in deletes <==> r in rows && KeyOf(r.rr) in Keys(dels) && Wire(r.rr) !in Exacts(adds)
  }

  lemma {:induction false} OfferMarks(rows: seq<Row>, dels: seq<Rr>, adds: seq<Rr>)
    requires Sound(rows)
    ensures Marks(rows, dels, adds, PlanOf(rows, dels, adds).deletes)
  {
    if adds == [] {
      MarkAllSpec(rows, dels);
    } else {
      var n := |adds| - 1;
      OfferMarks(rows, dels, adds[..n]);
      var before := PlanOf(rows, dels, adds[..n]).deletes;
      assert PlanOf(rows, dels, adds).deletes == Cancel(before, Wire(adds[n]));
      MarksGrow(rows, dels, adds, before);
    }
  }

  lemma MarksGrow(rows: seq<Row>, dels: seq<Rr>, adds: seq<Rr>, before: seq<Row>)
    requires Sound(rows) && adds != [] && Marks(rows, dels, adds[..|adds| - 1], before)
    ensures Marks(rows, dels, adds, Cancel(before, Wire(adds[|adds| - 1])))
  {
    OfferStep(rows, before, Wire(adds[|adds| - 1]));
    ItemsGrow(adds);
  }

  function Cancel(deletes: seq<Row>, w: WireRr): seq<Row> {
    match FindDelete(deletes, w) case Some(i) => deletes[..i] + deletes[i + 1..] case None => deletes
  }

  lemma RemoveAt(list: seq<Row>, i: nat)
    requires i < |list| && forall m, n | 0 <= m < n < |list| :: list[m].id != list[n].id
    ensures var out := list[..i] + list[i + 1..];
            && (forall m, n | 0 <= m < n < |out| :: out[m].id != out[n].id)
            && (forall r :: r in out <==> r in list && r != list[i])
  {
    var out := list[..i] + list[i + 1..];
    assert forall m | 0 <= m < |out| :: out[m] == if m < i then list[m] else list[m + 1];
    assert forall m | 0 <= m < |out| :: out[m].id != list[i].id;
    forall r | r in list && r != list[i] ensures r in out {
      var j :| 0 <= j < |list| && list[j] == r;
      assert out[if j < i then j else j - 1] == r;
    }
  }

  lemma OfferStep(rows: seq<Row>, deletes: seq<Row>, w: WireRr)
    requires Sound(rows) && Listed(deletes, rows)
    ensures Listed(Cancel(deletes, w), rows)
    ensures forall r :: r in Cancel(deletes, w) <==> r in deletes && Wire(r.rr) != w
  {
    var f := FindDelete(deletes, w);
    if f.Some? {
      RemoveAt(deletes, f.value);
      assert deletes[f.value] in deletes;
      forall r | r in deletes && Wire(r.rr) == w ensures r == deletes[f.value] {
      }
    }
  }

  // ---- What the plan leads to ------------------------------------------------------------

  /** The first item of a key. */
  ghost function First(items: seq<Rr>, k: Key): (x: Rr)
    requires k in Keys(items)
    ensures x in items && KeyOf(x) == k
  {
    var n := |items| - 1;
    assert items == items[..n] + [items[n]];
    if k in Keys(items[..n]) then First(items[..n], k) else items[n]
  }

  /** A kept row or a created record is exactly this record. */
  ghost predicate Holding(rows: seq<Row>, p: Plan, w: WireRr) {
    || (exists r | r in rows :: r !in p.deletes && Wire(r.rr) == w)
    || w in Exacts(p.creates)
  }

  ghost predicate HoldingKey(rows: seq<Row>, p: Plan, k: Key) {
    || (exists r | r in rows :: r !in p.deletes && KeyOf(r.rr) == k)
    || k in Keys(p.creates)
  }

  /** Every row of the key is to be deleted. */
  ghost predicate Freed(rows: seq<Row>, dels: seq<Rr>, k: Key) {
    k in Keys(dels) || forall r | r in rows :: KeyOf(r.rr) != k
  }

  lemma OfferKeeps(rows: seq<Row>, p: Plan, item: Rr)
    requires Sound(rows) && Listed(p.deletes, rows)
    ensures var q := Offer(rows, p, item);
            && q.deletes == Cancel(p.deletes, Wire(item))
            && Listed(q.deletes, rows)
            && (forall r | r in q.deletes :: r in p.deletes)
            && Keys(p.creates) <= Keys(q.creates) && Exacts(p.creates) <= Exacts(q.creates)
            && HoldingKey(rows, q, KeyOf(item))
            && (forall c | c in q.creates :: c in p.creates || c == item)
  {
    OfferStep(rows, p.deletes, Wire(item));
    var q := Offer(rows, p, item);
    if FindDelete(p.deletes, Wire(item)).Some? {
      var d := p.deletes[FindDelete(p.deletes, Wire(item)).value];
      assert d in rows && d !in q.deletes;
    } else if exists row | row in rows :: row.id !in Ids(p.deletes) && KeyOf(row.rr) == KeyOf(item) {
      var row :| row in rows && row.id !in Ids(p.deletes) && KeyOf(row.rr) == KeyOf(item);
      assert row !in p.deletes;
    } else if exists c | c in p.creates :: Wire(c) == Wire(item) {
      var c :| c in p.creates && Wire(c) == Wire(item);
      assert KeyOf(c) == KeyOf(item);
    } else {
      assert item in q.creates;
    }
  }

  lemma HoldingPersists(rows: seq<Row>, p: Plan, q: Plan, w: WireRr, k: Key)
    requires forall r | r in q.deletes :: r in p.deletes
    requires Keys(p.creates) <= Keys(q.creates) && Exacts(p.creates) <= Exacts(q.creates)
    ensures Holding(rows, p, w) ==> Holding(rows, q, w)
    ensures HoldingKey(rows, p, k) ==> HoldingKey(rows, q, k)
  {
  }

  lemma {:induction false} CreatesSpec(rows: seq<Row>, dels: seq<Rr>, adds: seq<Rr>, k: Key)
    requires Sound(rows)
    ensures var p := PlanOf(rows, dels, adds);
            && (forall c | c in p.creates :: c in adds)
            && (k in Keys(adds) ==> HoldingKey(rows, p, k))
  {
    if adds != [] {
      var n := |adds| - 1;
      CreatesSpec(rows, dels, adds[..n], k);
      OfferMarks(rows, dels, adds[..n]);
      ItemsGrow(adds);
      assert adds == adds[..n] + [adds[n]];
      var p := PlanOf(rows, dels, adds[..n]);
      OfferKeeps(rows, p, adds[n]);
      HoldingPersists(rows, p, Offer(rows, p, adds[n]), Wire(adds[n]), k);
    }
  }

  /** A freed key's first add decides the record held. */
  lemma {:induction false} FirstWins(rows: seq<Row>, dels: seq<Rr>, adds: seq<Rr>, k: Key)
    requires Sound(rows) && k in Keys(adds) && Freed(rows, dels, k)
    ensures Holding(rows, PlanOf(rows, dels, adds), Wire(First(adds, k)))
  {
    var n := |adds| - 1;
    var p, item := PlanOf(rows, dels, adds[..n]), adds[n];
    assert adds == adds[..n] + [item];
    OfferMarks(rows, dels, adds[..n]);
    OfferKeeps(rows, p, item);
    if k in Keys(adds[..n]) {
      FirstWins(rows, dels, adds[..n], k);
      HoldingPersists(rows, p, Offer(rows, p, item), Wire(First(adds, k)), k);
    } else {
      CreatesSpec(rows, dels, adds[..n], k);
      FirstOffer(rows, dels, adds[..n], item);
    }
  }

  lemma FirstOffer(rows: seq<Row>, dels: seq<Rr>, before: seq<Rr>, item: Rr)
    requires Sound(rows) && KeyOf(item) !in Keys(before) && Freed(rows, dels, KeyOf(item))
    requires Marks(rows, dels, before, PlanOf(rows, dels, before).deletes)
    requires forall c | c in PlanOf(rows, dels, before).creates :: c in before
    ensures Holding(rows, Offer(rows, PlanOf(rows, dels, before), item), Wire(item))
  {
    var p := PlanOf(rows, dels, before);
    var q := Offer(rows, p, item);
    OfferStep(rows, p.deletes, Wire(item));
    if FindDelete(p.deletes, Wire(item)).Some? {
      var d := p.deletes[FindDelete(p.deletes, Wire(item)).value];
      assert d in p.deletes && d !in q.deletes;
    } else {
      forall r | r in rows && KeyOf(r.rr) == KeyOf(item) ensures r in p.deletes {
        assert Wire(r.rr) !in Exacts(before) by {
          assert forall x | x in before :: KeyOf(x) in Keys(before);
        }
      }
      assert forall c | c in p.creates :: KeyOf(c) in Keys(before);
      assert item in q.creates;
    }
  }

  /** The rows after applying a plan. */
  function After(rows: seq<Row>, p: Plan, next: int): seq<Row> {
    Without(rows, Ids(p.deletes)) + Numbered(p.creates, next)
  }

  ghost predicate InAfter(rows: seq<Row>, p: Plan, rr: Rr) {
    (exists r | r in rows :: r !in p.deletes && r.rr == rr) || rr in p.creates
  }

  lemma AfterRrs(rows: seq<Row>, p: Plan, next: int)
    requires Sound(rows) && Listed(p.deletes, rows)
    ensures forall rr :: rr in Rrs(After(rows, p, next)) <==> InAfter(rows, p, rr)
    ensures forall r | r in rows && r !in p.deletes :: r in After(rows, p, next)
  {
    forall r | r in rows ensures r.id in Ids(p.deletes) <==> r in p.deletes { IdListed(rows, p.deletes, r); }
    NumberedRrs(p.creates, next);
    assert Rrs(After(rows, p, next)) == Rrs(Without(rows, Ids(p.deletes))) + Rrs(Numbered(p.creates, next));
  }

  ghost predicate Accepted(rows: seq<Row>, p: Plan) { AddErrors(Without(rows, Ids(p.deletes)), p.creates) == [] }

  lemma AcceptedCoherent(rows: seq<Row>, p: Plan, next: int)
    requires GoodRows(rows)
    ensures Accepted(rows, p) <==> Coherent(After(rows, p, next))
  {
    WithoutCoherent(rows, Ids(p.deletes));
    BatchExact(Without(rows, Ids(p.deletes)), p.creates, next);
  }

  /** The keys of the result are the existing ones minus the deleted ones plus the added ones. */
  lemma ResultKeys(rows: seq<Row>, dels: seq<Rr>, adds: seq<Rr>, next: int, k: Key)
    requires Sound(rows)
    ensures var p := PlanOf(rows, dels, adds);
            (exists rr | rr in Rrs(After(rows, p, next)) :: KeyOf(rr) == k) <==>
            ((exists r | r in rows :: KeyOf(r.rr) == k) && k !in Keys(dels)) || k in Keys(adds)
  {
    var p := PlanOf(rows, dels, adds);
    OfferMarks(rows, dels, adds);
    AfterRrs(rows, p, next);
    CreatesSpec(rows, dels, adds, k);
    if rr :| rr in Rrs(After(rows, p, next)) && KeyOf(rr) == k {
      if rr in p.creates {
        assert rr in adds;
      } else if k in Keys(dels) {
        var r :| r in rows && r !in p.deletes && r.rr == rr;
        var x :| x in adds && Wire(x) == Wire(rr);
        assert KeyOf(x) == k;
      }
    }
    if k in Keys(adds) {
      if k in Keys(p.creates) {
        var c :| c in p.creates && KeyOf(c) == k;
        assert InAfter(rows, p, c);
      } else {
        var r :| r in rows && r !in p.deletes && KeyOf(r.rr) == k;
        assert InAfter(rows, p, r.rr);
      }
    } else if k !in Keys(dels) && exists r | r in rows :: KeyOf(r.rr) == k {
      var r :| r in rows && KeyOf(r.rr) == k;
      assert InAfter(rows, p, r.rr);
    }
  }

  /** In the result, a key the request does not delete keeps its row untouched, and a key it
      creates or deletes and re-adds carries the first add's TTL. */
  lemma ResultRecords(rows: seq<Row>, dels: seq<Rr>, adds: seq<Rr>, next: int, rr: Rr)
    requires GoodRows(rows) && Accepted(rows, PlanOf(rows, dels, adds))
    requires rr in Rrs(After(rows, PlanOf(rows, dels, adds), next))
    ensures forall r | r in rows && KeyOf(r.rr) !in Keys(dels) :: r in After(rows, PlanOf(rows, dels, adds), next)
    ensures KeyOf(rr) in Keys(adds) && Freed(rows, dels, KeyOf(rr)) ==> Wire(rr) == Wire(First(adds, KeyOf(rr)))
  {
    var p := PlanOf(rows, dels, adds);
    GoodIsSound(rows);
    OfferMarks(rows, dels, adds);
    AfterRrs(rows, p, next);
    if KeyOf(rr) in Keys(adds) && Freed(rows, dels, KeyOf(rr)) {
      var w := Wire(First(adds, KeyOf(rr)));
      FirstWins(rows, dels, adds, KeyOf(rr));
      assert exists other | other in Rrs(After(rows, p, next)) :: Wire(other) == w by {
        if w in Exacts(p.creates) {
          var c :| c in p.creates && Wire(c) == w;
          assert InAfter(rows, p, c);
        } else {
          var r :| r in rows && r !in p.deletes && Wire(r.rr) == w;
          assert InAfter(rows, p, r.rr);
        }
      }
      var other :| other in Rrs(After(rows, p, next)) && Wire(other) == w;
      AcceptedCoherent(rows, p, next);
      History.CoherentKeys(After(rows, p, next));
    }
  }

  lemma KeysOfRows(rows: seq<Row>, k: Key)
    ensures k in Keys(RrsOf(rows)) <==> exists r | r in rows :: KeyOf(r.rr) == k
  {
    if k in Keys(RrsOf(rows)) {
      var i :| 0 <= i < |rows| && KeyOf(RrsOf(rows)[i]) == k;
      assert rows[i] in rows;
    }
    if r :| r in rows && KeyOf(r.rr) == k {
      var i :| 0 <= i < |rows| && rows[i] == r;
      assert RrsOf(rows)[i] in RrsOf(rows);
    }
  }

  /** What applying a request means: the identities are the ones before, less the deleted, plus
      the added; a row of an identity that is not deleted is untouched; an identity that was
      absent or deleted carries the TTL of its first add. */
  ghost predicate Applies(rows: seq<Row>, dels: seq<Rr>, adds: seq<Rr>, out: seq<Row>) {
    Reconciles(rows, dels, adds, out) == true
  }

  ghost predicate Reconciles(rows: seq<Row>, dels: seq<Rr>, adds: seq<Rr>, out: seq<Row>) {
    && (forall k :: k in Keys(RrsOf(out)) <==> (k in Keys(RrsOf(rows)) && k !in Keys(dels)) || k in Keys(adds))
    && (forall r | r in rows && KeyOf(r.rr) !in Keys(dels) :: r in out)
    && (forall r | r in out && KeyOf(r.rr) in Keys(adds) && Freed(rows, dels, KeyOf(r.rr)) ::
          Wire(r.rr) == Wire(First(adds, KeyOf(r.rr))))
  }

  lemma PlanApplies(rows: seq<Row>, dels: seq<Rr>, adds: seq<Rr>, next: int)
    requires GoodRows(rows) && Accepted(rows, PlanOf(rows, dels, adds))
    ensures Applies(rows, dels, adds, After(rows, PlanOf(rows, dels, adds), next))
  {
    var out := After(rows, PlanOf(rows, dels, adds), next);
    GoodIsSound(rows);
    forall k ensures k in Keys(RrsOf(out)) <==> (k in Keys(RrsOf(rows)) && k !in Keys(dels)) || k in Keys(adds) {
      KeysOfRows(out, k);
      KeysOfRows(rows, k);
      ResultKeys(rows, dels, adds, next, k);
      assert (exists rr | rr in Rrs(out) :: KeyOf(rr) == k) <==> exists r | r in out :: KeyOf(r.rr) == k;
    }
    KeepsOthers(rows, dels, adds, next);
    forall r | r in out && KeyOf(r.rr) in Keys(adds) && Freed(rows, dels, KeyOf(r.rr))
      ensures Wire(r.rr) == Wire(First(adds, KeyOf(r.rr)))
    {
      assert r.rr in Rrs(out);
      ResultRecords(rows, dels, adds, next, r.rr);
    }
  }

  lemma KeepsOthers(rows: seq<Row>, dels: seq<Rr>, adds: seq<Rr>, next: int)
    requires Sound(rows)
    ensures forall r | r in rows && KeyOf(r.rr) !in Keys(dels) :: r in After(rows, PlanOf(rows, dels, adds), next)
  {
    OfferMarks(rows, dels, adds);
    AfterRrs(rows, PlanOf(rows, dels, adds), next);
  }

  /** A row no operation may touch, such as the apex NS, is kept. */
  lemma UnsupportedKept(rows: seq<Row>, dels: seq<Rr>, adds: seq<Rr>, next: int, r: Row)
    requires Sound(rows) && r in rows && !Supported(r.rr.rtype)
    requires forall d | d in dels :: Supported(d.rtype)
    ensures r in After(rows, PlanOf(rows, dels, adds), next)
  {
    OfferMarks(rows, dels, adds);
    AfterRrs(rows, PlanOf(rows, dels, adds), next);
  }

  // ---- Applying the same request again -----------------------------------------------------

  /** Every row of a deleted key is exactly the first add of that key. */
  ghost predicate Applied(rows: seq<Row>, dels: seq<Rr>, adds: seq<Rr>) {
    && (forall k | k in Keys(adds) :: exists r | r in rows :: KeyOf(r.rr) == k)
    && (forall r | r in rows && KeyOf(r.rr) in Keys(dels) ::
          KeyOf(r.rr) in Keys(adds) && Wire(r.rr) == Wire(First(adds, KeyOf(r.rr))))
  }

  lemma ResultApplied(rows: seq<Row>, dels: seq<Rr>, adds: seq<Rr>, next: int)
    requires GoodRows(rows) && Accepted(rows, PlanOf(rows, dels, adds))
    ensures Applied(After(rows, PlanOf(rows, dels, adds), next), dels, adds)
  {
    GoodIsSound(rows);
    var out := After(rows, PlanOf(rows, dels, adds), next);
    forall k | k in Keys(adds) ensures exists r | r in out :: KeyOf(r.rr) == k {
      ResultKeys(rows, dels, adds, next, k);
      var rr :| rr in Rrs(out) && KeyOf(rr) == k;
    }
    forall r | r in out && KeyOf(r.rr) in Keys(dels)
      ensures KeyOf(r.rr) in Keys(adds) && Wire(r.rr) == Wire(First(adds, KeyOf(r.rr)))
    {
      assert r.rr in Rrs(out);
      ResultKeys(rows, dels, adds, next, KeyOf(r.rr));
      ResultRecords(rows, dels, adds, next, r.rr);
    }
  }

  lemma {:induction false} FirstOfPrefix(items: seq<Rr>, n: nat, k: Key)
    requires n <= |items| && k in Keys(items[..n])
    ensures k in Keys(items) && First(items, k) == First(items[..n], k)
    decreases |items|
  {
    var m := |items| - 1;
    if n < |items| {
      assert items[..m][..n] == items[..n];
      FirstOfPrefix(items[..m], n, k);
      assert items == items[..m] + [items[m]];
    } else {
      assert items[..n] == items;
    }
  }

  lemma FirstKnown(adds: seq<Rr>, n: nat, k: Key)
    requires n <= |adds| && k in Keys(adds[..n])
    ensures k in Keys(adds) && Wire(First(adds, k)) in Exacts(adds[..n])
  {
    FirstOfPrefix(adds, n, k);
  }

  /** A row still marked when an add of its key comes is exactly the add's record. */
  lemma MarkedIsItem(rows: seq<Row>, dels: seq<Rr>, adds: seq<Rr>, n: nat, deletes: seq<Row>, r: Row)
    requires Applied(rows, dels, adds) && n < |adds| && Marks(rows, dels, adds[..n], deletes)
    requires r in deletes && KeyOf(r.rr) == KeyOf(adds[n])
    ensures Wire(r.rr) == Wire(adds[n])
  {
    var k := KeyOf(r.rr);
    assert adds[..n + 1] == adds[..n] + [adds[n]];
    assert adds[n] in adds[..n + 1];
    FirstOfPrefix(adds, n + 1, k);
    if k in Keys(adds[..n]) { FirstKnown(adds, n, k); }
  }

  lemma NoCreate(rows: seq<Row>, p: Plan, item: Rr, r: Row)
    requires Sound(rows) && Listed(p.deletes, rows) && r in rows && KeyOf(r.rr) == KeyOf(item)
    requires r in p.deletes ==> Wire(r.rr) == Wire(item)
    ensures Offer(rows, p, item).creates == p.creates
  {
    IdListed(rows, p.deletes, r);
  }

  lemma OfferedAgain(rows: seq<Row>, dels: seq<Rr>, adds: seq<Rr>, n: nat, p: Plan)
    requires Sound(rows) && Applied(rows, dels, adds) && n < |adds| && Marks(rows, dels, adds[..n], p.deletes)
    ensures Offer(rows, p, adds[n]).creates == p.creates
  {
    assert KeyOf(adds[n]) in Keys(adds) by { assert adds[n] in adds; }
    var r :| r in rows && KeyOf(r.rr) == KeyOf(adds[n]);
    if r in p.deletes { MarkedIsItem(rows, dels, adds, n, p.deletes, r); }
    NoCreate(rows, p, adds[n], r);
  }

  lemma PlanNext(rows: seq<Row>, dels: seq<Rr>, adds: seq<Rr>, n: nat)
    requires n < |adds|
    ensures PlanOf(rows, dels, adds[..n + 1]) == Offer(rows, PlanOf(rows, dels, adds[..n]), adds[n])
  {
    assert adds[..n + 1][..n] == adds[..n];
  }

  /** Offered again, no add creates anything. */
  lemma {:induction false} NothingCreated(rows: seq<Row>, dels: seq<Rr>, adds: seq<Rr>, n: nat)
    requires Sound(rows) && Applied(rows, dels, adds) && n <= |adds|
    ensures PlanOf(rows, dels, adds[..n]).creates == []
    decreases n
  {
    if n > 0 {
      NothingCreated(rows, dels, adds, n - 1);
      PlanNext(rows, dels, adds, n - 1);
      OfferMarks(rows, dels, adds[..n - 1]);
      OfferedAgain(rows, dels, adds, n - 1, PlanOf(rows, dels, adds[..n - 1]));
    }
  }

  lemma SomeMember<T>(q: seq<T>)
    ensures q == [] || exists x :: x in q
  {
    if q != [] { assert q[0] in q; }
  }

  /** Recomputing an applied request on the resulting rows yields the empty change set. */
  lemma Idempotent(zoneTtl: int, rows: seq<Row>, ops: ZoneOps, next: int)
    requires GoodRows(rows) && Compute(zoneTtl, rows, ops).Resolved?
    requires forall r | r in rows :: r.id < next
    ensures Compute(zoneTtl, After(rows, Compute(zoneTtl, rows, ops).plan, next), ops) == Resolved(Plan([], []))
  {
    var dels, adds := Items(ops.dels, zoneTtl), Items(ops.adds, zoneTtl);
    var p := PlanOf(rows, dels, adds);
    var out := After(rows, p, next);
    AcceptedCoherent(rows, p, next);
    WithoutCoherent(rows, Ids(p.deletes));
    assert UniqueIds(out) by {
      var kept := Without(rows, Ids(p.deletes));
      forall i | 0 <= i < |kept| ensures kept[i].id < next { assert kept[i] in kept; }
    }
    ResultApplied(rows, dels, adds, next);
    GoodIsSound(out);
    NothingCreated(out, dels, adds, |adds|);
    assert adds[..|adds|] == adds;
    OfferMarks(out, dels, adds);
    var again := PlanOf(out, dels, adds);
    forall r | r in out && KeyOf(r.rr) in Keys(dels) ensures Wire(r.rr) in Exacts(adds) {
      assert First(adds, KeyOf(r.rr)) in adds;
    }
    SomeMember(again.deletes);
  }

  // ---- Loading only the rows at the request's owner names --------------------------------------

  function OpOwners(ops: ZoneOps): set<Owner> { set op | op in ops.adds + ops.dels :: op.owner }

  lemma {:induction false} ItemOwners(ops: seq<RrsetOp>, zoneTtl: int, names: set<Owner>)
    requires forall op | op in ops :: op.owner in names
    ensures forall x | x in Items(ops, zoneTtl) :: x.owner in names
  {
    if ops != [] {
      var n := |ops| - 1;
      ItemOwners(ops[..n], zoneTtl, names);
      assert ops[n] in ops;
    }
  }

  lemma {:induction false} MarkNear(rows: seq<Row>, names: set<Owner>, k: Key, deletes: seq<Row>)
    requires k.owner in names
    ensures Mark(OfOwners(rows, names), k, deletes) == Mark(rows, k, deletes)
  {
    if rows != [] {
      var n := |rows| - 1;
      MarkNear(rows[..n], names, k, deletes);
      var near := OfOwners(rows[..n], names);
      if rows[n].rr.owner in names {
        assert (near + [rows[n]])[..|near|] == near;
      } else {
        assert near + [] == near;
      }
    }
  }

  lemma {:induction false} MarkAllNear(rows: seq<Row>, names: set<Owner>, items: seq<Rr>)
    requires forall x | x in items :: x.owner in names
    ensures MarkAll(OfOwners(rows, names), items) == MarkAll(rows, items)
  {
    if items != [] {
      var n := |items| - 1;
      MarkAllNear(rows, names, items[..n]);
      assert items[n] in items;
      MarkNear(rows, names, KeyOf(items[n]), MarkAll(rows, items[..n]));
    }
  }

  lemma {:induction false} OfferAllNear(rows: seq<Row>, names: set<Owner>, p: Plan, items: seq<Rr>)
    requires forall x | x in items :: x.owner in names
    ensures OfferAll(OfOwners(rows, names), p, items) == OfferAll(rows, p, items)
    ensures forall c | c in OfferAll(rows, p, items).creates :: c in p.creates || c in items
  {
    if items != [] {
      var n := |items| - 1;
      OfferAllNear(rows, names, p, items[..n]);
      var item := items[n];
      assert item in items;
      assert forall row: Row | KeyOf(row.rr) == KeyOf(item) :: row in OfOwners(rows, names) <==> row in rows;
    }
  }

  /** Computing against only the rows that share an owner name with the request gives the
      same change set, or the same error, as computing against the whole zone. */
  lemma RestrictedCompute(zoneTtl: int, rows: seq<Row>, ops: ZoneOps)
    ensures Compute(zoneTtl, OfOwners(rows, OpOwners(ops)), ops) == Compute(zoneTtl, rows, ops)
  {
    var names, dels, adds := OpOwners(ops), Items(ops.dels, zoneTtl), Items(ops.adds, zoneTtl);
    ItemOwners(ops.dels, zoneTtl, names);
    ItemOwners(ops.adds, zoneTtl, names);
    MarkAllNear(rows, names, dels);
    OfferAllNear(rows, names, Plan(MarkAll(rows, dels), []), adds);
    var p := PlanOf(rows, dels, adds);
    RestrictedBatch(Without(OfOwners(rows, names), Ids(p.deletes)), Without(rows, Ids(p.deletes)), p.creates);
  }

  // ---- The loops ------------------------------------------------------------------------------

  method MarkRows(existing: seq<Row>, op: RrsetOp, v: Value, marked: seq<Row>, ghost zoneTtl: int)
    returns (deletes: seq<Row>)
    requires Supported(op.rtype)
    ensures deletes == Mark(existing, KeyOf(OpRr(op, v, zoneTtl)), marked)
  {
    deletes := marked;
    for i := 0 to |existing|
      invariant deletes == Mark(existing[..i], KeyOf(OpRr(op, v, zoneTtl)), marked)
    {
      var row := existing[i];
      assert existing[..i + 1][..i] == existing[..i];
      if row.rr.owner == op.owner && row.rr.rtype == op.rtype && row.rr.value.canon == v.canon
         && row.id !in Ids(deletes) {
        deletes := deletes + [row];
      }
    }
    assert existing[..|existing|] == existing;
  }

  lemma MarkAllGrows(existing: seq<Row>, done: seq<Rr>, mine: seq<Rr>, j: nat)
    requires j < |mine|
    ensures MarkAll(existing, done + mine[..j + 1])
         == Mark(existing, KeyOf(mine[j]), MarkAll(existing, done + mine[..j]))
  {
    var items := done + mine[..j];
    assert done + mine[..j + 1] == items + [mine[j]];
    assert (items + [mine[j]])[..|items|] == items;
  }

  method MarkOp(existing: seq<Row>, op: RrsetOp, marked: seq<Row>, ghost done: seq<Rr>, ghost zoneTtl: int)
    returns (deletes: seq<Row>)
    requires Supported(op.rtype) && marked == MarkAll(existing, done)
    ensures deletes == MarkAll(existing, done + OpRrs(op, zoneTtl))
  {
    deletes := marked;
    ghost var mine := OpRrs(op, zoneTtl);
    assert done + mine[..0] == done;
    for j := 0 to |op.values|
      invariant deletes == MarkAll(existing, done + mine[..j])
    {
      MarkAllGrows(existing, done, mine, j);
      deletes := MarkRows(existing, op, op.values[j], deletes, zoneTtl);
    }
    assert mine[..|op.values|] == mine;
  }

  method MarkDeletes(existing: seq<Row>, dels: seq<RrsetOp>, ghost zoneTtl: int) returns (deletes: seq<Row>)
    requires forall op | op in dels :: Supported(op.rtype)
    ensures deletes == MarkAll(existing, Items(dels, zoneTtl))
  {
    deletes := [];
    for i := 0 to |dels|
      invariant deletes == MarkAll(existing, Items(dels[..i], zoneTtl))
    {
      deletes := MarkOp(existing, dels[i], deletes, Items(dels[..i], zoneTtl), zoneTtl);
      assert dels[..i + 1][..i] == dels[..i];
    }
    assert dels[..|dels|] == dels;
  }

  lemma OfferAllGrows(existing: seq<Row>, start: Plan, done: seq<Rr>, mine: seq<Rr>, j: nat)
    requires j < |mine|
    ensures OfferAll(existing, start, done + mine[..j + 1])
         == Offer(existing, OfferAll(existing, start, done + mine[..j]), mine[j])
  {
    var items := done + mine[..j];
    assert done + mine[..j + 1] == items + [mine[j]];
    assert (items + [mine[j]])[..|items|] == items;
  }

  /** One value of one add, as `compute_zone_change_set` walks it. */
  method OfferOne(existing: seq<Row>, p: Plan, item: Rr) returns (q: Plan)
    ensures q == Offer(existing, p, item)
  {
    match FindDelete(p.deletes, Wire(item)) {
      case Some(i) => q := p.(deletes := p.deletes[..i] + p.deletes[i + 1..]);
      case None =>
        if exists row | row in existing :: row.id !in Ids(p.deletes) && KeyOf(row.rr) == KeyOf(item) { return p; }
        if exists c | c in p.creates :: Wire(c) == Wire(item) { return p; }
        q := p.(creates := p.creates + [item]);
    }
  }

  method OfferOp(existing: seq<Row>, ghost start: Plan, op: RrsetOp, before: Plan, ghost done: seq<Rr>, zoneTtl: int)
    returns (p: Plan)
    requires before == OfferAll(existing, start, done)
    ensures p == OfferAll(existing, start, done + OpRrs(op, zoneTtl))
  {
    p := before;
    ghost var mine := OpRrs(op, zoneTtl);
    assert done + mine[..0] == done;
    for j := 0 to |op.values|
      invariant p == OfferAll(existing, start, done + mine[..j])
    {
      OfferAllGrows(existing, start, done, mine, j);
      p := OfferOne(existing, p, OpRr(op, op.values[j], zoneTtl));
    }
    assert mine[..|op.values|] == mine;
  }

  method OfferAdds(existing: seq<Row>, start: Plan, adds: seq<RrsetOp>, zoneTtl: int) returns (p: Plan)
    ensures p == OfferAll(existing, start, Items(adds, zoneTtl))
  {
    p := start;
    for i := 0 to |adds|
      invariant p == OfferAll(existing, start, Items(adds[..i], zoneTtl))
    {
      p := OfferOp(existing, start, adds[i], p, Items(adds[..i], zoneTtl), zoneTtl);
      assert adds[..i + 1][..i] == adds[..i];
    }
    assert adds[..|adds|] == adds;
  }

  /** `compute_zone_change_set`. */
  method ComputeChangeSet(zoneTtl: int, existing: seq<Row>, ops: ZoneOps) returns (out: Outcome)
    requires SupportedOps(ops)
    ensures out == Compute(zoneTtl, existing, ops)
  {
    var deletes := MarkDeletes(existing, ops.dels, zoneTtl);
    var p := OfferAdds(existing, Plan(deletes, []), ops.adds, zoneTtl);
    var errors := CheckAdds(Without(existing, Ids(p.deletes)), p.creates);
    out := if errors == [] then Resolved(p) else Rejected(errors[0]);
  }
}
