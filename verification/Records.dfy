/** Resource records as rows store them, the canonical identity two rows are
    compared by, and the constraint validator every validated add goes through
    (record/validation/mod.rs, model/record/mod.rs). */
module Records {
  datatype Option<+T> = None | Some(value: T) {
    function GetOr(other: T): T { if Some? then value else other }
  }

  datatype RType = A | AAAA | CNAME | MX | TXT | NS | SOA | SRV | PTR

  /** Decoded, lowercased labels relative to the zone; the apex has none. */
  type Owner = seq<string>

  /** A value column: `text` as stored, `canon` its canonical comparison form
      without the priority, `grammars` the types whose rdata grammar accepts it. */
  datatype Value = Value(text: string, canon: string, grammars: set<RType>)

  /** A record without its database id. */
  datatype Rr = Rr(owner: Owner, rtype: RType, value: Value, ttl: int, priority: Option<int>)

  datatype Row = Row(id: int, rr: Rr)

  /** Identity for set matching: owner, type and canonical value(+priority). TTL is not part of it. */
  datatype Key = Key(owner: Owner, rtype: RType, canon: string, pref: int)

  /** What a transfer carries for a record: its canonical identity and its TTL. */
  datatype WireRr = WireRr(key: Key, ttl: int)

  const DEFAULT_PRIORITY := 10
  const MAX_U16 := 65535
  const NULL_TARGET := "."

  predicate HasPriority(t: RType) { t == MX || t == SRV }

  /** The priority a value is compared with: the column, or 10, for MX and SRV; nothing otherwise. */
  function Pref(t: RType, priority: Option<int>): int {
    if !HasPriority(t) then 0
    else match priority case Some(p) => p case None => DEFAULT_PRIORITY
  }

  function KeyOf(rr: Rr): Key {
    Key(rr.owner, rr.rtype, rr.value.canon, Pref(rr.rtype, rr.priority))
  }

  function Wire(rr: Rr): WireRr { WireRr(KeyOf(rr), rr.ttl) }

  predicate IsNullMx(k: Key) {
    k.rtype == MX && k.canon == NULL_TARGET && k.pref == 0
  }

  /** The rdata grammar and the priority column fit the type. */
  predicate ValueOk(t: RType, v: Value, priority: Option<int>) {
    && (priority.Some? ==> HasPriority(t))
    && t in v.grammars
    && (HasPriority(t) ==> 0 <= Pref(t, priority) <= MAX_U16)
    && (t == MX && v.canon == NULL_TARGET ==> Pref(t, priority) == 0)
  }

  /** What a record must satisfy on its own. */
  predicate RrOk(rr: Rr) {
    && rr.rtype != SOA
    && ValueOk(rr.rtype, rr.value, rr.priority)
    && (rr.rtype == CNAME ==> rr.owner != [])
    && (rr.rtype == NS ==> rr.owner == [])
  }

  /** What two distinct records of one zone must satisfy together: no shared
      identity, a CNAME alone at its owner (section 3.6.2 of RFC 1034), a null MX
      alone among MX records (RFC 7505), one TTL per RRset (section 5.2 of RFC 2181). */
  predicate Compatible(a: WireRr, b: WireRr) {
    a.key.owner == b.key.owner ==>
      && a.key != b.key
      && a.key.rtype != CNAME && b.key.rtype != CNAME
      && (a.key.rtype == b.key.rtype ==>
            && a.ttl == b.ttl
            && !IsNullMx(a.key) && !IsNullMx(b.key))
  }

  datatype AddError = SoaRefused | InvalidValue | CnameAtApex | Duplicate | NullMxConflict
                    | CnameNotAlone | CnameExists | NsNotAtApex | TtlMismatch

  /** Rows an add is checked against: same owner, and not the row being replaced. */
  predicate Rival(e: Row, rr: Rr, except: Option<int>) {
    e.rr.owner == rr.owner && except != Some(e.id)
  }

  /** `validate_record_add_constraints_normalized`, checks in source order; `None` accepts. */
  function ValidateAdd(existing: seq<Row>, rr: Rr, except: Option<int>): (r: Option<AddError>)
  {
    if rr.rtype == SOA then Some(SoaRefused)
    else if !ValueOk(rr.rtype, rr.value, rr.priority) then Some(InvalidValue)
    else if rr.rtype == CNAME && rr.owner == [] then Some(CnameAtApex)
    else if exists e | e in existing :: Rival(e, rr, except) && KeyOf(e.rr) == KeyOf(rr) then Some(Duplicate)
    else if rr.rtype == MX && IsNullMx(KeyOf(rr))
            && exists e | e in existing :: Rival(e, rr, except) && e.rr.rtype == MX then Some(NullMxConflict)
    else if rr.rtype == MX && !IsNullMx(KeyOf(rr))
            && exists e | e in existing :: Rival(e, rr, except) && IsNullMx(KeyOf(e.rr)) then Some(NullMxConflict)
    else if rr.rtype == CNAME && exists e | e in existing :: Rival(e, rr, except) then Some(CnameNotAlone)
    else if exists e | e in existing :: Rival(e, rr, except) && e.rr.rtype == CNAME then Some(CnameExists)
    else if rr.rtype == NS && rr.owner != [] then Some(NsNotAtApex)
    else if exists e | e in existing :: Rival(e, rr, except) && e.rr.rtype == rr.rtype && e.rr.ttl != rr.ttl
      then Some(TtlMismatch)
    else None
  }

  /** The accept condition: the record is sound alone and with every rival. */
  ghost predicate Admits(existing: seq<Row>, rr: Rr, except: Option<int>) {
    RrOk(rr) && forall e | e in existing && except != Some(e.id) :: Compatible(Wire(e.rr), Wire(rr))
  }

  lemma ValidateAddExact(existing: seq<Row>, rr: Rr, except: Option<int>)
    ensures ValidateAdd(existing, rr, except) == None <==> Admits(existing, rr, except)
  {
    if ValidateAdd(existing, rr, except) == None {
      forall e | e in existing && except != Some(e.id) ensures Compatible(Wire(e.rr), Wire(rr)) {
        if e.rr.owner == rr.owner { assert Rival(e, rr, except); }
      }
    }
  }

  ghost predicate PairOk(rows: seq<Row>, i: nat, j: nat)
    requires i < |rows| && j < |rows|
  { Compatible(Wire(rows[i].rr), Wire(rows[j].rr)) }

  /** Every rule a zone's rows must meet: each row alone, every two rows together. */
  ghost predicate Coherent(rows: seq<Row>) { Consistent(rows) == true }

  ghost predicate Consistent(rows: seq<Row>) {
    && (forall r | r in rows :: RrOk(r.rr))
    && (forall i, j | 0 <= i < j < |rows| :: PairOk(rows, i, j))
  }

  ghost predicate Apart(rows: seq<Row>, i: nat, j: nat)
    requires i < |rows| && j < |rows|
  { KeyOf(rows[i].rr) != KeyOf(rows[j].rr) }

  /** No two rows share an identity. */
  ghost predicate KeysApart(rows: seq<Row>) { forall i, j | 0 <= i < j < |rows| :: Apart(rows, i, j) }

  function SameOwner(rows: seq<Row>, owner: Owner): (out: seq<Row>)
    ensures forall r :: r in out <==> r in rows && r.rr.owner == owner
  {
    if rows == [] then []
    else if rows[0].rr.owner == owner then [rows[0]] + SameOwner(rows[1..], owner)
    else SameOwner(rows[1..], owner)
  }

  /** A row joins coherent rows exactly when the validator's condition admits it. */
  lemma CoherentGrows(rows: seq<Row>, row: Row)
    requires Coherent(rows)
    ensures Admits(rows, row.rr, None) <==> Coherent(rows + [row])
  {
    var all, n := rows + [row], |rows|;
    assert all[n] == row && row in all;
    if Admits(rows, row.rr, None) {
      forall i, j | 0 <= i < j < |all| ensures PairOk(all, i, j) {
        assert all[i] == rows[i] && rows[i] in rows;
        if j < n { assert PairOk(rows, i, j); }
      }
    }
    if Coherent(all) {
      forall e | e in rows ensures Compatible(Wire(e.rr), Wire(row.rr)) {
        var i :| 0 <= i < n && rows[i] == e;
        assert PairOk(all, i, n);
      }
    }
  }

  /** The validator, run on the rows sharing the owner only, accepts exactly the
      records that keep the whole zone coherent. */
  lemma RestrictedValidationExact(rows: seq<Row>, row: Row)
    requires Coherent(rows)
    ensures ValidateAdd(SameOwner(rows, row.rr.owner), row.rr, None) == None <==> Coherent(rows + [row])
    ensures ValidateAdd(rows, row.rr, None) == None <==> Coherent(rows + [row])
  {
    CoherentGrows(rows, row);
    ValidateAddExact(SameOwner(rows, row.rr.owner), row.rr, None);
    ValidateAddExact(rows, row.rr, None);
  }

  function RrsOf(rows: seq<Row>): (out: seq<Rr>)
    ensures |out| == |rows| && forall i | 0 <= i < |rows| :: out[i] == rows[i].rr
  {
    seq(|rows|, i requires 0 <= i < |rows| => rows[i].rr)
  }

  ghost function RrSet(rrs: seq<Rr>): set<Rr> { set rr | rr in rrs }

  ghost function Rrs(rows: seq<Row>): set<Rr> { set r | r in rows :: r.rr }

  ghost function WireSet(s: set<Rr>): set<WireRr> { set rr | rr in s :: Wire(rr) }
}
