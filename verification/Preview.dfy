/** The differences a dry run previews (record/import.rs, record/bulk.rs): computed from the rows
    the request loads, and the ones applying it to the whole zone would make. */
module Preview {
  import opened Records
  import opened Transaction
  import opened Batch
  import opened Diff
  import opened ExternalDns
  import opened Import
  import opened ZoneService
  import Zone

  lemma JoinedRecords(rows: seq<Row>, adds: seq<Rr>, next: int)
    ensures RrsOf(rows + Numbered(adds, next)) == RrsOf(rows) + adds
  {
  }

  lemma AfterRecords(rows: seq<Row>, p: Plan, next: int)
    ensures RrsOf(After(rows, p, next)) == RrsOf(Without(rows, Ids(p.deletes))) + p.creates
  {
    JoinedRecords(Without(rows, Ids(p.deletes)), p.creates, next);
  }

  /** `import_diff`. */
  method ImportDiff(existing: seq<Row>, p: Plan, ghost next: int) returns (d: RecordDiff)
    ensures Describes(existing, After(existing, p, next), d)
  {
    AfterRecords(existing, p, next);
    d := BuildRecordDiff(RrsOf(existing), RrsOf(Without(existing, Ids(p.deletes))) + p.creates);
  }

  /** An append deletes nothing. */
  lemma AppendOnlyAdds(meta: Zone.Meta, rows: seq<Row>, desired: seq<Rr>, next: int)
    ensures var m := Resolve(Append, meta, rows, desired);
            && RrsOf(After(rows, ToPlan(m), next)) == RrsOf(rows) + m.adds
            && forall a | a in m.adds :: a in desired
  {
    var m := Resolve(Append, meta, rows, desired);
    var names := set d | d in desired :: d.owner;
    WalkNear(rows, names, desired);
    AppendDoomsNone(meta, rows, desired);
    assert m.dels == [];
    WithoutNone(rows, Ids(m.dels));
    AfterRecords(rows, ToPlan(m), next);
  }

  /** An append previews, from the rows sharing an owner name with the file, the difference it
      would make to the whole zone. */
  lemma AppendPreview(meta: Zone.Meta, rows: seq<Row>, desired: seq<Rr>, next: int, entries: seq<Entry>)
    requires var near := OfOwners(rows, set d | d in desired :: d.owner);
             var m := Resolve(Append, meta, near, desired);
             IsDiff(RrsOf(near), RrsOf(After(near, ToPlan(m), next)), entries)
    ensures var m := Resolve(Append, meta, rows, desired);
            IsDiff(RrsOf(rows), RrsOf(After(rows, ToPlan(m), next)), entries)
  {
    var names := set d | d in desired :: d.owner;
    RestrictedAppend(meta, rows, desired);
    AppendOnlyAdds(meta, rows, desired, next);
    AppendOnlyAdds(meta, OfOwners(rows, names), desired, next);
    PreviewNear(rows, names, Resolve(Append, meta, rows, desired).adds, entries);
  }

  lemma PreviewRows(rows: seq<Row>, names: set<Owner>, adds: seq<Rr>, next: int, d: RecordDiff)
    requires forall a | a in adds :: a.owner in names
    requires var near := RrsOf(OfOwners(rows, names)); IsDiff(near, near + adds, d.entries) && Summed(d)
    ensures Describes(rows, rows + Numbered(adds, next), d)
  {
    PreviewNear(rows, names, adds, d.entries);
    JoinedRecords(rows, adds, next);
  }

  lemma ItemOwners(items: seq<Item>, ttl: int)
    ensures forall a | a in ItemRrs(items, ttl) :: a.owner in set it | it in items :: it.owner
  {
    var adds := ItemRrs(items, ttl);
    forall a | a in adds ensures a.owner in set it | it in items :: it.owner {
      var i :| 0 <= i < |adds| && adds[i] == a;
      assert items[i] in items;
    }
  }

  /** The preview of `create_bulk`, from the rows at the batch's owner names. */
  method BulkDiff(rows: seq<Row>, items: seq<Item>, ttl: int, ghost next: int) returns (d: RecordDiff)
    ensures Describes(rows, rows + Numbered(ItemRrs(items, ttl), next), d)
  {
    var adds, names := ItemRrs(items, ttl), set it | it in items :: it.owner;
    var near := RrsOf(OfOwners(rows, names));
    d := BuildRecordDiff(near, near + adds);
    ItemOwners(items, ttl);
    PreviewRows(rows, names, adds, next, d);
  }

  /** The preview of an import, from the rows it loads. */
  method FileDiff(mode: Mode, meta: Zone.Meta, rows: seq<Row>, desired: seq<Rr>, m: Reconciled, ghost next: int)
    returns (d: RecordDiff)
    requires m == Resolve(mode, meta, rows, desired)
    ensures Describes(rows, After(rows, ToPlan(m), next), d)
  {
    var existing := if mode == Append then OfOwners(rows, set d | d in desired :: d.owner) else rows;
    d := ImportDiff(existing, ToPlan(m), next);
    if mode == Append {
      RestrictedAppend(meta, rows, desired);
      AppendPreview(meta, rows, desired, next, d.entries);
    }
  }
}
