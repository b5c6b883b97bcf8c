/** Validating a batch of adds one after another, each against the rows it will land
    among, with an index by owner name (record/bulk.rs, record/import.rs, zone/history.rs). */
module Batch {
  import opened Records
  import opened Transaction

  /** The errors of the batch in order; an accepted add counts for the later ones. */
  function AddErrors(rows: seq<Row>, adds: seq<Rr>): seq<AddError>
    decreases |adds|
  {
    if adds == [] then []
    else
      match ValidateAdd(rows, adds[0], None)
      case None => AddErrors(rows + [Row(-1, adds[0])], adds[1..])
      case Some(e) => [e] + AddErrors(rows, adds[1..])
  }

  /** Coherence does not look at ids. */
  lemma CoherentIds(a: seq<Row>, b: seq<Row>)
    requires |a| == |b| && forall i | 0 <= i < |a| :: a[i].rr == b[i].rr
    ensures Coherent(a) <==> Coherent(b)
  {
    assert forall i, j | 0 <= i < j < |a| :: PairOk(a, i, j) == PairOk(b, i, j);
    assert (forall r | r in a :: RrOk(r.rr)) <==> (forall i | 0 <= i < |a| :: RrOk(a[i].rr));
    assert (forall r | r in b :: RrOk(r.rr)) <==> (forall i | 0 <= i < |b| :: RrOk(b[i].rr));
  }

  lemma CoherentPrefix(a: seq<Row>, b: seq<Row>)
    requires Coherent(a + b)
    ensures Coherent(a)
  {
    forall i, j | 0 <= i < j < |a| ensures PairOk(a, i, j) { assert PairOk(a + b, i, j); }
    assert forall r | r in a :: r in a + b;
  }

  lemma FirstAdd(rows: seq<Row>, adds: seq<Rr>, next: int)
    requires adds != []
    ensures Coherent(rows + Numbered(adds, next)) <==>
            Coherent((rows + [Row(-1, adds[0])]) + Numbered(adds[1..], next + 1))
    ensures Coherent(rows + Numbered(adds, next)) ==> Coherent(rows + [Row(-1, adds[0])])
  {
    var grown, rest := rows + [Row(-1, adds[0])], Numbered(adds[1..], next + 1);
    CoherentIds(grown + rest, rows + Numbered(adds, next));
    if Coherent(grown + rest) { CoherentPrefix(grown, rest); }
  }

  /** A batch is accepted exactly when the zone with all of it is coherent. */
  lemma {:induction false} BatchExact(rows: seq<Row>, adds: seq<Rr>, next: int)
    requires Coherent(rows)
    ensures AddErrors(rows, adds) == [] <==> Coherent(rows + Numbered(adds, next))
    decreases |adds|
  {
    if adds == [] {
      assert rows + Numbered(adds, next) == rows;
    } else {
      FirstAdd(rows, adds, next);
      RestrictedValidationExact(rows, Row(-1, adds[0]));
      if ValidateAdd(rows, adds[0], None) == None {
        BatchExact(rows + [Row(-1, adds[0])], adds[1..], next + 1);
      }
    }
  }

  // ---- Restricted loads -----------------------------------------------------------

  /** `list_records_by_zone_id_and_names_tx`. */
  function OfOwners(rows: seq<Row>, names: set<Owner>): (out: seq<Row>)
    ensures forall r :: r in out <==> r in rows && r.rr.owner in names
  {
    if rows == [] then []
    else
      var n := |rows| - 1;
      assert rows == rows[..n] + [rows[n]];
      OfOwners(rows[..n], names) + (if rows[n].rr.owner in names then [rows[n]] else [])
  }

  /** The same rows at one owner. */
  ghost predicate SameAt(a: seq<Row>, b: seq<Row>, owner: Owner) {
    forall r: Row :: r.rr.owner == owner ==> (r in a <==> r in b)
  }

  /** Only rows at the owner decide. */
  lemma ValidateNear(a: seq<Row>, b: seq<Row>, rr: Rr, except: Option<int>)
    requires SameAt(a, b, rr.owner)
    ensures ValidateAdd(a, rr, except) == ValidateAdd(b, rr, except)
  {
    assert forall e | Rival(e, rr, except) :: e in a <==> e in b;
  }

  /** The batch meets the same errors against the rows sharing an owner name with it
      as against the whole zone. */
  lemma {:induction false} RestrictedBatch(a: seq<Row>, b: seq<Row>, adds: seq<Rr>)
    requires forall rr | rr in adds :: SameAt(a, b, rr.owner)
    ensures AddErrors(a, adds) == AddErrors(b, adds)
    decreases |adds|
  {
    if adds != [] {
      assert adds[0] in adds;
      ValidateNear(a, b, adds[0], None);
      var row := Row(-1, adds[0]);
      forall rr | rr in adds[1..] ensures SameAt(a + [row], b + [row], rr.owner) && SameAt(a, b, rr.owner) {
        assert rr in adds;
      }
      RestrictedBatch(a + [row], b + [row], adds[1..]);
      RestrictedBatch(a, b, adds[1..]);
    }
  }

  // ---- The loop -------------------------------------------------------------------

  function Near(index: map<Owner, seq<Row>>, owner: Owner): seq<Row> { if owner in index then index[owner] else [] }

  ghost predicate Indexes(index: map<Owner, seq<Row>>, rows: seq<Row>) {
    forall r: Row :: r in Near(index, r.rr.owner) <==> r in rows
  }

  lemma IndexGrows(index: map<Owner, seq<Row>>, rows: seq<Row>, row: Row)
    requires Indexes(index, rows)
    ensures Indexes(index[row.rr.owner := Near(index, row.rr.owner) + [row]], rows + [row])
  {
  }

  method IndexByOwner(existing: seq<Row>) returns (index: map<Owner, seq<Row>>)
    ensures Indexes(index, existing)
  {
    index := map[];
    for i := 0 to |existing|
      invariant Indexes(index, existing[..i])
    {
      var o := existing[i].rr.owner;
      IndexGrows(index, existing[..i], existing[i]);
      index := index[o := Near(index, o) + [existing[i]]];
      assert existing[..i + 1] == existing[..i] + [existing[i]];
    }
    assert existing[..|existing|] == existing;
  }

  /** The rows at the add's owner decide, as the whole table does. */
  lemma NearDecides(index: map<Owner, seq<Row>>, rows: seq<Row>, rr: Rr)
    requires Indexes(index, rows)
    ensures ValidateAdd(Near(index, rr.owner), rr, None) == ValidateAdd(rows, rr, None)
  {
    assert SameAt(Near(index, rr.owner), rows, rr.owner);
    ValidateNear(Near(index, rr.owner), rows, rr, None);
  }

  lemma NextErrors(rows: seq<Row>, adds: seq<Rr>, i: nat, verdict: Option<AddError>)
    requires i < |adds| && verdict == ValidateAdd(rows, adds[i], None)
    ensures AddErrors(rows, adds[i..]) == Reported(verdict) + AddErrors(Grown(rows, adds[i], verdict), adds[i + 1..])
  {
    assert adds[i..][1..] == adds[i + 1..];
  }

  function Reported(verdict: Option<AddError>): seq<AddError> { if verdict.Some? then [verdict.value] else [] }

  /** An accepted add counts for the later ones. */
  function Grown(rows: seq<Row>, rr: Rr, verdict: Option<AddError>): seq<Row> {
    if verdict.Some? then rows else rows + [Row(-1, rr)]
  }

  /** One add against the rows at its owner; accepted, it joins the index. */
  method CheckOne(index: map<Owner, seq<Row>>, ghost rows: seq<Row>, rr: Rr)
    returns (verdict: Option<AddError>, grown: map<Owner, seq<Row>>)
    requires Indexes(index, rows)
    ensures verdict == ValidateAdd(rows, rr, None)
    ensures Indexes(grown, Grown(rows, rr, verdict))
  {
    NearDecides(index, rows, rr);
    verdict := ValidateAdd(Near(index, rr.owner), rr, None);
    IndexGrows(index, rows, Row(-1, rr));
    grown := if verdict.Some? then index else index[rr.owner := Near(index, rr.owner) + [Row(-1, rr)]];
  }

  /** Index the loaded rows by owner, then check each add against its own owner's rows. */
  method CheckAdds(existing: seq<Row>, adds: seq<Rr>) returns (errors: seq<AddError>)
    ensures errors == AddErrors(existing, adds)
  {
    var index := IndexByOwner(existing);
    ghost var rows := existing;
    errors := [];
    assert adds[0..] == adds;
    for i := 0 to |adds|
      invariant Indexes(index, rows)
      invariant AddErrors(existing, adds) == errors + AddErrors(rows, adds[i..])
    {
      var verdict, grown := CheckOne(index, rows, adds[i]);
      NextErrors(rows, adds, i, verdict);
      index, errors := grown, errors + Reported(verdict);
      rows := Grown(rows, adds[i], verdict);
    }
  }
}
