/** The RRset-level difference of two record lists (`build_record_diff` of zone/history.rs), as
    snapshots are compared and dry runs previewed. */
module Diff {
  import opened Records
  import opened Zone
  import opened History
  import opened Batch
  import Rollback

  datatype RrsetKey = RrsetKey(owner: Owner, rtype: RType)

  datatype Change = Appears | Vanishes | Differs

  /** One RRset that differs, with its records on each side. */
  datatype Entry = Entry(change: Change, key: RrsetKey, from: seq<Rr>, to: seq<Rr>)

  datatype RecordDiff = RecordDiff(entries: seq<Entry>, added: nat, removed: nat, changed: nat)

  function RrsetOf(rr: Rr): RrsetKey { RrsetKey(rr.owner, rr.rtype) }

  function WireKey(x: WireRr): RrsetKey { RrsetKey(x.key.owner, x.key.rtype) }

  function WireList(q: seq<Rr>): (out: seq<WireRr>)
    ensures |out| == |q| && forall i | 0 <= i < |q| :: out[i] == Wire(q[i])
  { seq(|q|, i requires 0 <= i < |q| => Wire(q[i])) }

  /** How often each record occurs, as a transfer shows it. */
  function Tally(q: seq<Rr>): multiset<WireRr> { multiset(WireList(q)) }

  /** The records of one RRset, in list order. */
  function Members(q: seq<Rr>, k: RrsetKey): seq<Rr> {
    if q == [] then []
    else Members(q[..|q| - 1], k) + (if RrsetOf(q[|q| - 1]) == k then [q[|q| - 1]] else [])
  }

  /** The entry of one RRset, if its two sides differ. */
  function EntryOf(before: seq<Rr>, after: seq<Rr>, k: RrsetKey): Option<Entry> {
    var b, a := Members(before, k), Members(after, k);
    if b == [] && a == [] then None
    else if b == [] then Some(Entry(Appears, k, [], a))
    else if a == [] then Some(Entry(Vanishes, k, b, []))
    else if Tally(b) != Tally(a) then Some(Entry(Differs, k, b, a)) else None
  }

  // ---- What a difference is ---------------------------------------------------------------------------

  /** The entries of exactly the RRsets that differ, each once, in some order. */
  ghost predicate IsDiff(before: seq<Rr>, after: seq<Rr>, entries: seq<Entry>) {
    && (forall e | e in entries :: EntryOf(before, after, e.key) == Some(e))
    && (forall k | EntryOf(before, after, k).Some? :: EntryOf(before, after, k).value in entries)
    && (forall i, j | 0 <= i < j < |entries| :: entries[i].key != entries[j].key)
  }

  const EMPTY_DIFF := RecordDiff([], 0, 0, 0)

  /** The difference of two row lists, with its counts. */
  ghost predicate Describes(before: seq<Row>, after: seq<Row>, d: RecordDiff) {
    IsDiff(RrsOf(before), RrsOf(after), d.entries) && Summed(d)
  }

  lemma TallyPush(q: seq<Rr>, rr: Rr, x: WireRr)
    ensures Tally(q + [rr])[x] == Tally(q)[x] + if Wire(rr) == x then 1 else 0
  {
    assert WireList(q + [rr]) == WireList(q) + [Wire(rr)];
    assert Tally(q + [rr]) == Tally(q) + multiset{Wire(rr)};
  }

  /** A record is counted with its own RRset and with no other. */
  lemma {:induction false} MembersTally(q: seq<Rr>, k: RrsetKey, x: WireRr)
    ensures Tally(Members(q, k))[x] == if WireKey(x) == k then Tally(q)[x] else 0
  {
    if q == [] {
      assert WireList(q) == [];
    } else {
      var n := |q| - 1;
      MembersTally(q[..n], k, x);
      assert Tally(q)[x] == Tally(q[..n])[x] + if Wire(q[n]) == x then 1 else 0 by {
        assert q[..n] + [q[n]] == q;
        TallyPush(q[..n], q[n], x);
      }
      var m := Members(q[..n], k);
      TallyPush(m, q[n], x);
      assert Members(q, k) == if RrsetOf(q[n]) == k then m + [q[n]] else m;
    }
  }

  lemma EmptyTally(q: seq<Rr>)
    ensures Tally(q) == multiset{} <==> q == []
  {
    assert |Tally(q)| == |q|;
  }

  /** An RRset has an entry exactly when its two sides count differently. */
  lemma EntryExact(before: seq<Rr>, after: seq<Rr>, k: RrsetKey)
    ensures EntryOf(before, after, k).Some? <==> Tally(Members(before, k)) != Tally(Members(after, k))
  {
    EmptyTally(Members(before, k));
    EmptyTally(Members(after, k));
  }

  lemma SameSides(before: seq<Rr>, after: seq<Rr>, k: RrsetKey)
    requires Tally(before) == Tally(after)
    ensures Tally(Members(before, k)) == Tally(Members(after, k))
  {
    forall x ensures Tally(Members(before, k))[x] == Tally(Members(after, k))[x] {
      MembersTally(before, k, x);
      MembersTally(after, k, x);
    }
  }

  lemma SomeEntry(q: seq<Entry>)
    ensures q == [] || exists e :: e in q
  {
    if q != [] { assert q[0] in q; }
  }

  /** The difference is empty exactly when both sides hold the same records, TTLs included,
      equally often. */
  lemma EmptyExact(before: seq<Rr>, after: seq<Rr>, entries: seq<Entry>)
    requires IsDiff(before, after, entries)
    ensures entries == [] <==> Tally(before) == Tally(after)
  {
    if Tally(before) == Tally(after) {
      forall e | e in entries ensures false {
        EntryExact(before, after, e.key);
        SameSides(before, after, e.key);
      }
      SomeEntry(entries);
    }
    if entries == [] {
      forall x ensures Tally(before)[x] == Tally(after)[x] {
        EntryExact(before, after, WireKey(x));
        MembersTally(before, WireKey(x), x);
        MembersTally(after, WireKey(x), x);
      }
    }
  }

  // ---- Patching ---------------------------------------------------------------------------------------

  /** The count of a record once the listed RRsets are replaced by their new side. */
  ghost predicate Patches(before: seq<Rr>, entries: seq<Entry>, after: seq<Rr>) {
    && (forall e, x | e in entries && WireKey(x) == e.key ::
          Tally(after)[x] == Tally(e.to)[x] && Tally(before)[x] == Tally(e.from)[x])
    && (forall x | (forall e | e in entries :: e.key != WireKey(x)) :: Tally(after)[x] == Tally(before)[x])
  }

  lemma EntrySides(before: seq<Rr>, after: seq<Rr>, e: Entry, x: WireRr)
    requires EntryOf(before, after, e.key) == Some(e) && WireKey(x) == e.key
    ensures Tally(after)[x] == Tally(e.to)[x] && Tally(before)[x] == Tally(e.from)[x]
  {
    MembersTally(before, e.key, x);
    MembersTally(after, e.key, x);
  }

  lemma UnlistedSame(before: seq<Rr>, after: seq<Rr>, entries: seq<Entry>, x: WireRr)
    requires IsDiff(before, after, entries) && forall e | e in entries :: e.key != WireKey(x)
    ensures Tally(after)[x] == Tally(before)[x]
  {
    var k := WireKey(x);
    if EntryOf(before, after, k).Some? { assert EntryOf(before, after, k).value.key == k; }
    EntryExact(before, after, k);
    MembersTally(before, k, x);
    MembersTally(after, k, x);
  }

  /** Replacing each listed RRset's old side by its new one turns the records before into the
      records after. */
  lemma DiffPatches(before: seq<Rr>, after: seq<Rr>, entries: seq<Entry>)
    requires IsDiff(before, after, entries)
    ensures Patches(before, entries, after)
  {
    forall e, x | e in entries && WireKey(x) == e.key
      ensures Tally(after)[x] == Tally(e.to)[x] && Tally(before)[x] == Tally(e.from)[x]
    {
      EntrySides(before, after, e, x);
    }
    forall x | (forall e | e in entries :: e.key != WireKey(x)) ensures Tally(after)[x] == Tally(before)[x] {
      UnlistedSame(before, after, entries, x);
    }
  }

  // ---- Swapping the sides -------------------------------------------------------------------------------

  function Opposite(c: Change): Change {
    match c case Appears => Vanishes case Vanishes => Appears case Differs => Differs
  }

  function SwapEntry(e: Entry): Entry { Entry(Opposite(e.change), e.key, e.to, e.from) }

  function SwapAll(entries: seq<Entry>): (out: seq<Entry>)
    ensures |out| == |entries| && forall i | 0 <= i < |entries| :: out[i] == SwapEntry(entries[i])
  { seq(|entries|, i requires 0 <= i < |entries| => SwapEntry(entries[i])) }

  lemma EntrySwaps(before: seq<Rr>, after: seq<Rr>, k: RrsetKey)
    ensures EntryOf(after, before, k) ==
            match EntryOf(before, after, k) case Some(e) => Some(SwapEntry(e)) case None => None
  {
  }

  /** Comparing the other way round gives the same entries with their sides swapped. */
  lemma DiffSwaps(before: seq<Rr>, after: seq<Rr>, entries: seq<Entry>)
    requires IsDiff(before, after, entries)
    ensures IsDiff(after, before, SwapAll(entries))
  {
    var out := SwapAll(entries);
    forall e | e in out ensures EntryOf(after, before, e.key) == Some(e) {
      var i :| 0 <= i < |out| && out[i] == e;
      assert entries[i] in entries;
      EntrySwaps(before, after, e.key);
    }
    forall k | EntryOf(after, before, k).Some? ensures EntryOf(after, before, k).value in out {
      EntrySwaps(before, after, k);
      var e := EntryOf(before, after, k).value;
      assert e in entries;
      var i :| 0 <= i < |entries| && entries[i] == e;
      assert out[i] == SwapEntry(e);
    }
  }

  function CountOf(entries: seq<Entry>, c: Change): nat {
    if entries == [] then 0
    else CountOf(entries[..|entries| - 1], c) + if entries[|entries| - 1].change == c then 1 else 0
  }

  lemma {:induction false} SwapCounts(entries: seq<Entry>, c: Change)
    ensures CountOf(SwapAll(entries), Opposite(c)) == CountOf(entries, c)
  {
    if entries != [] {
      assert SwapAll(entries)[..|entries| - 1] == SwapAll(entries[..|entries| - 1]);
      SwapCounts(entries[..|entries| - 1], c);
    }
  }

  // ---- The loops ----------------------------------------------------------------------------------------

  function Bucketed(groups: map<RrsetKey, seq<Rr>>, k: RrsetKey): seq<Rr> { if k in groups then groups[k] else [] }

  /** `group_rrsets`. */
  method GroupRrsets(q: seq<Rr>) returns (groups: map<RrsetKey, seq<Rr>>)
    ensures forall k :: Bucketed(groups, k) == Members(q, k)
    ensures forall k | k in groups :: groups[k] != []
  {
    groups := map[];
    for i := 0 to |q|
      invariant forall k :: Bucketed(groups, k) == Members(q[..i], k)
      invariant forall k | k in groups :: groups[k] != []
    {
      assert q[..i + 1][..i] == q[..i];
      ghost var before := groups;
      var k := RrsetOf(q[i]);
      groups := groups[k := Bucketed(groups, k) + [q[i]]];
      forall m ensures Bucketed(groups, m) == Members(q[..i + 1], m) {
        assert Bucketed(before, m) == Members(q[..i], m);
      }
    }
    assert q[..|q|] == q;
  }

  ghost predicate Visited(before: seq<Rr>, after: seq<Rr>, entries: seq<Entry>, left: set<RrsetKey>) {
    && (forall e | e in entries :: EntryOf(before, after, e.key) == Some(e) && e.key !in left)
    && (forall k | EntryOf(before, after, k).Some? && k !in left :: EntryOf(before, after, k).value in entries)
    && (forall i, j | 0 <= i < j < |entries| :: entries[i].key != entries[j].key)
  }

  lemma VisitNext(before: seq<Rr>, after: seq<Rr>, entries: seq<Entry>, left: set<RrsetKey>, k: RrsetKey)
    requires Visited(before, after, entries, left) && k in left
    ensures var e := EntryOf(before, after, k);
            Visited(before, after, if e.Some? then entries + [e.value] else entries, left - {k})
  {
    var e := EntryOf(before, after, k);
    var out := if e.Some? then entries + [e.value] else entries;
    forall i, j | 0 <= i < j < |out| ensures out[i].key != out[j].key {
      if j == |entries| { assert out[i] in entries; }
    }
  }

  lemma CountPush(entries: seq<Entry>, e: Entry, c: Change)
    ensures CountOf(entries + [e], c) == CountOf(entries, c) + if e.change == c then 1 else 0
  {
    assert (entries + [e])[..|entries|] == entries;
  }

  ghost predicate Summed(d: RecordDiff) {
    && d.added == CountOf(d.entries, Appears) && d.removed == CountOf(d.entries, Vanishes)
    && d.changed == CountOf(d.entries, Differs)
  }

  /** One RRset of the comparison. */
  method CompareGroups(d: RecordDiff, k: RrsetKey, b: Option<seq<Rr>>, a: Option<seq<Rr>>) returns (out: RecordDiff)
    requires Summed(d) && (b.Some? ==> b.value != []) && (a.Some? ==> a.value != []) && (a.Some? || b.Some?)
    ensures Summed(out)
    ensures var e := if b.None? then Some(Entry(Appears, k, [], a.value))
                     else if a.None? then Some(Entry(Vanishes, k, b.value, []))
                     else if Tally(b.value) != Tally(a.value) then Some(Entry(Differs, k, b.value, a.value)) else None;
            out.entries == if e.Some? then d.entries + [e.value] else d.entries
  {
    out := d;
    if b.None? {
      out := d.(entries := d.entries + [Entry(Appears, k, [], a.value)], added := d.added + 1);
    } else if a.None? {
      out := d.(entries := d.entries + [Entry(Vanishes, k, b.value, [])], removed := d.removed + 1);
    } else if Tally(b.value) != Tally(a.value) {
      out := d.(entries := d.entries + [Entry(Differs, k, b.value, a.value)], changed := d.changed + 1);
    }
    if out.entries != d.entries {
      var e := out.entries[|d.entries|];
      CountPush(d.entries, e, Appears);
      CountPush(d.entries, e, Vanishes);
      CountPush(d.entries, e, Differs);
    }
  }

  lemma Unseen(before: seq<Rr>, after: seq<Rr>, keys: set<RrsetKey>)
    requires forall k | k !in keys :: Members(before, k) == [] && Members(after, k) == []
    ensures Visited(before, after, [], keys)
  {
  }

  /** `build_record_diff`. */
  method BuildRecordDiff(before: seq<Rr>, after: seq<Rr>) returns (d: RecordDiff)
    ensures IsDiff(before, after, d.entries) && Summed(d)
  {
    var bs := GroupRrsets(before);
    var as' := GroupRrsets(after);
    var left := bs.Keys + as'.Keys;
    d := EMPTY_DIFF;
    forall k | k !in left ensures Members(before, k) == [] && Members(after, k) == [] {
      assert Bucketed(bs, k) == Members(before, k) && Bucketed(as', k) == Members(after, k);
    }
    Unseen(before, after, left);
    while left != {}
      invariant left <= bs.Keys + as'.Keys
      invariant Visited(before, after, d.entries, left) && Summed(d)
      decreases left
    {
      var k :| k in left;
      VisitNext(before, after, d.entries, left, k);
      assert Bucketed(bs, k) == Members(before, k) && Bucketed(as', k) == Members(after, k);
      d := CompareGroups(d, k, if k in bs then Some(bs[k]) else None, if k in as' then Some(as'[k]) else None);
      left := left - {k};
    }
  }

  // ---- Two serials ----------------------------------------------------------------------------------------

  lemma {:induction false} TallyCount(q: seq<Rr>, x: WireRr)
    requires forall i, j | 0 <= i < j < |q| :: KeyOf(q[i]) != KeyOf(q[j])
    ensures Tally(q)[x] == if exists rr | rr in q :: Wire(rr) == x then 1 else 0
  {
    if q == [] {
      assert WireList(q) == [];
    } else {
      var n := |q| - 1;
      TallyCount(q[..n], x);
      assert q[..n] + [q[n]] == q;
      TallyPush(q[..n], q[n], x);
      assert q[n] in q;
      forall rr | rr in q[..n] ensures Wire(rr) != Wire(q[n]) { var i :| 0 <= i < n && q[i] == rr; }
    }
  }

  lemma ListedTally(q: seq<Rr>, s: set<Rr>, x: WireRr)
    requires Lists(q, s) && KeyUnique(s)
    ensures Tally(q)[x] == if x in WireSet(s) then 1 else 0
  {
    Rollback.ListsDistinct(q, s);
    TallyCount(q, x);
    forall rr ensures rr in q <==> rr in s { Rollback.ListsMember(q, s, rr); }
  }

  /** Two committed record sets compare as equal exactly when transfers of them agree. */
  lemma SetsDiffer(a: seq<Rr>, sa: set<Rr>, b: seq<Rr>, sb: set<Rr>, entries: seq<Entry>)
    requires Lists(a, sa) && KeyUnique(sa) && Lists(b, sb) && KeyUnique(sb) && IsDiff(a, b, entries)
    ensures entries == [] <==> WireSet(sa) == WireSet(sb)
  {
    EmptyExact(a, b, entries);
    TalliesAgree(a, sa, b, sb);
  }

  /** The records of one RRset. */
  ghost function OfRrset(s: set<Rr>, k: RrsetKey): set<Rr> { set rr | rr in s && RrsetOf(rr) == k }

  /** One RRset of two committed record sets: every record of either side once, and the kind of
      change. */
  ghost predicate Shows(sa: set<Rr>, sb: set<Rr>, e: Entry) {
    && Lists(e.from, OfRrset(sa, e.key)) && Lists(e.to, OfRrset(sb, e.key))
    && e.change == if e.from == [] then Appears else if e.to == [] then Vanishes else Differs
  }

  ghost predicate ListsRrset(d: RecordDiff, k: RrsetKey) { exists e | e in d.entries :: e.key == k }

  /** What comparing two committed record sets gives: exactly the RRsets that transfers show
      differently, each once and in full, and their counts. */
  ghost predicate Compares(sa: set<Rr>, sb: set<Rr>, d: RecordDiff) { Contrasts(sa, sb, d) == true }

  ghost predicate Contrasts(sa: set<Rr>, sb: set<Rr>, d: RecordDiff) {
    && (forall e | e in d.entries :: Shows(sa, sb, e))
    && (forall k :: ListsRrset(d, k) <==> WireSet(OfRrset(sa, k)) != WireSet(OfRrset(sb, k)))
    && (forall i, j | 0 <= i < j < |d.entries| :: d.entries[i].key != d.entries[j].key)
    && Summed(d)
  }

  lemma {:induction false} MembersCount(q: seq<Rr>, k: RrsetKey, rr: Rr)
    ensures multiset(Members(q, k))[rr] == if RrsetOf(rr) == k then multiset(q)[rr] else 0
  {
    if q != [] {
      var n := |q| - 1;
      MembersCount(q[..n], k, rr);
      assert q == q[..n] + [q[n]];
    }
  }

  lemma MembersListed(q: seq<Rr>, s: set<Rr>, k: RrsetKey)
    requires Lists(q, s)
    ensures Lists(Members(q, k), OfRrset(s, k))
  {
    forall rr ensures multiset(Members(q, k))[rr] == if rr in OfRrset(s, k) then 1 else 0 { MembersCount(q, k, rr); }
  }

  /** Two listed sets count alike exactly when transfers of them agree. */
  lemma TalliesAgree(a: seq<Rr>, sa: set<Rr>, b: seq<Rr>, sb: set<Rr>)
    requires Lists(a, sa) && KeyUnique(sa) && Lists(b, sb) && KeyUnique(sb)
    ensures Tally(a) == Tally(b) <==> WireSet(sa) == WireSet(sb)
  {
    forall x
      ensures Tally(a)[x] == if x in WireSet(sa) then 1 else 0
      ensures Tally(b)[x] == if x in WireSet(sb) then 1 else 0
    {
      ListedTally(a, sa, x);
      ListedTally(b, sb, x);
    }
    if Tally(a) == Tally(b) {
      forall x ensures x in WireSet(sa) <==> x in WireSet(sb) { assert Tally(a)[x] == Tally(b)[x]; }
    }
  }

  lemma RrsetListed(a: seq<Rr>, sa: set<Rr>, b: seq<Rr>, sb: set<Rr>, d: RecordDiff, k: RrsetKey)
    requires Lists(a, sa) && KeyUnique(sa) && Lists(b, sb) && KeyUnique(sb) && IsDiff(a, b, d.entries)
    ensures ListsRrset(d, k) <==> WireSet(OfRrset(sa, k)) != WireSet(OfRrset(sb, k))
  {
    MembersListed(a, sa, k);
    MembersListed(b, sb, k);
    TalliesAgree(Members(a, k), OfRrset(sa, k), Members(b, k), OfRrset(sb, k));
    EntryExact(a, b, k);
    if EntryOf(a, b, k).Some? { assert EntryOf(a, b, k).value.key == k; }
  }

  /** The comparison of two listed record sets, told in terms of the sets. */
  lemma SetsCompare(a: seq<Rr>, sa: set<Rr>, b: seq<Rr>, sb: set<Rr>, d: RecordDiff)
    requires Lists(a, sa) && KeyUnique(sa) && Lists(b, sb) && KeyUnique(sb) && IsDiff(a, b, d.entries) && Summed(d)
    ensures Compares(sa, sb, d)
  {
    forall e | e in d.entries ensures Shows(sa, sb, e) {
      MembersListed(a, sa, e.key);
      MembersListed(b, sb, e.key);
    }
    forall k ensures ListsRrset(d, k) <==> WireSet(OfRrset(sa, k)) != WireSet(OfRrset(sb, k)) {
      RrsetListed(a, sa, b, sb, d, k);
    }
  }

  lemma RrsetWires(s: set<Rr>, x: WireRr)
    ensures x in WireSet(s) <==> x in WireSet(OfRrset(s, WireKey(x)))
  {
    if x in WireSet(s) {
      var rr :| rr in s && Wire(rr) == x;
      assert rr in OfRrset(s, WireKey(x));
    }
  }

  /** Replacing the listed RRsets turns the one set into the other, as transfers show them. */
  lemma ComparesPatches(sa: set<Rr>, sb: set<Rr>, d: RecordDiff, x: WireRr)
    requires Compares(sa, sb, d)
    ensures x in WireSet(sb) <==>
            || (exists e | e in d.entries :: e.key == WireKey(x) && exists rr | rr in e.to :: Wire(rr) == x)
            || (x in WireSet(sa) && !ListsRrset(d, WireKey(x)))
  {
    var k := WireKey(x);
    assert Contrasts(sa, sb, d);
    RrsetWires(sa, x);
    RrsetWires(sb, x);
    forall e | e in d.entries && e.key == k
      ensures (exists rr | rr in e.to :: Wire(rr) == x) <==> x in WireSet(OfRrset(sb, k))
    {
      forall rr ensures rr in e.to <==> rr in OfRrset(sb, k) { Rollback.ListsMember(e.to, OfRrset(sb, k), rr); }
    }
  }

  // ---- Previewing from the rows at the request's owner names ------------------------------------------------

  /** On this RRset the short lists tell the same as the long ones, or nothing where those agree. */
  ghost predicate AgreeAt(before: seq<Rr>, after: seq<Rr>, b: seq<Rr>, a: seq<Rr>, k: RrsetKey) {
    || (Members(b, k) == Members(before, k) && Members(a, k) == Members(after, k))
    || (Members(b, k) == [] && Members(a, k) == [] && Members(before, k) == Members(after, k))
  }

  lemma SameEntries(before: seq<Rr>, after: seq<Rr>, b: seq<Rr>, a: seq<Rr>, entries: seq<Entry>)
    requires (forall k :: AgreeAt(before, after, b, a, k)) && IsDiff(b, a, entries)
    ensures IsDiff(before, after, entries)
  {
    forall k ensures EntryOf(before, after, k) == EntryOf(b, a, k) { assert AgreeAt(before, after, b, a, k); }
  }

  lemma {:induction false} MembersAppend(p: seq<Rr>, q: seq<Rr>, k: RrsetKey)
    ensures Members(p + q, k) == Members(p, k) + Members(q, k)
    decreases |q|
  {
    if q == [] {
      assert p + q == p;
    } else {
      var n := |q| - 1;
      assert (p + q)[..|p + q| - 1] == p + q[..n];
      MembersAppend(p, q[..n], k);
    }
  }

  lemma MembersPush(q: seq<Rr>, rr: Rr, k: RrsetKey)
    ensures Members(q + [rr], k) == Members(q, k) + if RrsetOf(rr) == k then [rr] else []
  {
    assert (q + [rr])[..|q|] == q;
  }

  lemma RrsPush(rows: seq<Row>, r: Row)
    ensures RrsOf(rows + [r]) == RrsOf(rows) + [r.rr]
  {
  }

  /** The RRset seen from the rows near it is the whole one, or empty when its owner is not near. */
  ghost predicate SeenNear(near: seq<Row>, rows: seq<Row>, names: set<Owner>, k: RrsetKey) {
    Restricts(near, rows, names, k) == true
  }

  ghost predicate Restricts(near: seq<Row>, rows: seq<Row>, names: set<Owner>, k: RrsetKey) {
    Members(RrsOf(near), k) == if k.owner in names then Members(RrsOf(rows), k) else []
  }

  lemma NearStep(near: seq<Row>, front: seq<Row>, r: Row, names: set<Owner>, k: RrsetKey)
    requires SeenNear(near, front, names, k)
    ensures SeenNear(if r.rr.owner in names then near + [r] else near, front + [r], names, k)
  {
    RrsPush(near, r);
    RrsPush(front, r);
    MembersPush(RrsOf(near), r.rr, k);
    MembersPush(RrsOf(front), r.rr, k);
  }

  lemma OwnersPush(front: seq<Row>, r: Row, names: set<Owner>)
    ensures OfOwners(front + [r], names)
         == if r.rr.owner in names then OfOwners(front, names) + [r] else OfOwners(front, names)
  {
    assert (front + [r])[..|front|] == front;
  }

  lemma NearPush(front: seq<Row>, r: Row, names: set<Owner>, k: RrsetKey)
    requires SeenNear(OfOwners(front, names), front, names, k)
    ensures SeenNear(OfOwners(front + [r], names), front + [r], names, k)
  {
    NearStep(OfOwners(front, names), front, r, names, k);
    OwnersPush(front, r, names);
  }

  lemma EmptyNear(names: set<Owner>, k: RrsetKey)
    ensures SeenNear(OfOwners([], names), [], names, k)
  {
    assert RrsOf([]) == [] && OfOwners([], names) == [];
    assert Restricts([], [], names, k);
  }

  lemma LastSplit(rows: seq<Row>)
    requires rows != []
    ensures rows == rows[..|rows| - 1] + [rows[|rows| - 1]]
  {
  }

  lemma {:induction false} MembersNear(rows: seq<Row>, names: set<Owner>, k: RrsetKey)
    ensures SeenNear(OfOwners(rows, names), rows, names, k)
  {
    if rows == [] {
      EmptyNear(names, k);
    } else {
      MembersNear(rows[..|rows| - 1], names, k);
      NearPush(rows[..|rows| - 1], rows[|rows| - 1], names, k);
      LastSplit(rows);
    }
  }

  lemma {:induction false} NoMembers(q: seq<Rr>, k: RrsetKey)
    requires forall rr | rr in q :: rr.owner != k.owner
    ensures Members(q, k) == []
  {
    if q != [] {
      assert q[|q| - 1] in q;
      NoMembers(q[..|q| - 1], k);
    }
  }

  /** A dry run that inserts records previews the same difference from the rows at a set of owner
      names, its own among them, as from the whole zone. */
  lemma PreviewNear(rows: seq<Row>, names: set<Owner>, adds: seq<Rr>, entries: seq<Entry>)
    requires forall a | a in adds :: a.owner in names
    requires var near := RrsOf(OfOwners(rows, names)); IsDiff(near, near + adds, entries)
    ensures IsDiff(RrsOf(rows), RrsOf(rows) + adds, entries)
  {
    var near, all := RrsOf(OfOwners(rows, names)), RrsOf(rows);
    forall k ensures AgreeAt(all, all + adds, near, near + adds, k) {
      MembersNear(rows, names, k);
      MembersAppend(all, adds, k);
      MembersAppend(near, adds, k);
      if k.owner !in names { NoMembers(adds, k); }
    }
    SameEntries(all, all + adds, near, near + adds, entries);
  }
}
