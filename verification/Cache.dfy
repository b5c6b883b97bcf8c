/** The transfer cache (server/zone_cache.rs): a clock-stamped map that behaves as a list of zones
    in order of use, and what it answers while transfers and commits interleave. */
module Cache {
  import opened Records
  import opened Zone
  import Transfer

  const MAX_ENTRIES := 1024

  // ---- The recency list ---------------------------------------------------------------------------------

  /** A zone row's database id. */
  datatype ZoneId = ZoneId(id: int)

  /** One zone's cached records, tagged with a serial. */
  datatype Slot = Slot(zone: ZoneId, serial: int, records: seq<Row>)

  function Find(list: seq<Slot>, zone: ZoneId): (r: Option<Slot>)
    ensures r.Some? ==> r.value in list && r.value.zone == zone
    ensures r.None? ==> forall s | s in list :: s.zone != zone
  {
    if list == [] then None
    else if list[0].zone == zone then Some(list[0])
    else Find(list[1..], zone)
  }

  function Drop(list: seq<Slot>, zone: ZoneId): (out: seq<Slot>)
    ensures forall s :: s in out <==> s in list && s.zone != zone
  {
    if list == [] then []
    else if list[0].zone == zone then Drop(list[1..], zone)
    else [list[0]] + Drop(list[1..], zone)
  }

  /** A hit moves the zone to the front; a miss, or another serial, changes nothing. */
  function Touched(list: seq<Slot>, zone: ZoneId, serial: int): seq<Slot> {
    match Find(list, zone)
    case Some(slot) => if slot.serial == serial then [slot] + Drop(list, zone) else list
    case None => list
  }

  function Hit(list: seq<Slot>, zone: ZoneId, serial: int): Option<seq<Row>> {
    match Find(list, zone)
    case Some(slot) => if slot.serial == serial then Some(slot.records) else None
    case None => None
  }

  /** A store puts the zone at the front; a new zone beyond the bound drops the last. */
  function Put(list: seq<Slot>, slot: Slot): seq<Slot> {
    if Find(list, slot.zone).None? && |list| >= MAX_ENTRIES then [slot] + list[..|list| - 1]
    else [slot] + Drop(list, slot.zone)
  }

  // ---- The stamped map refines it -----------------------------------------------------------------------

  datatype Entry = Entry(serial: int, records: seq<Row>, lastUsed: nat)

  function StampOf(entries: map<ZoneId, Entry>, zone: ZoneId): int {
    if zone in entries then entries[zone].lastUsed else -1
  }

  function SlotOf(entries: map<ZoneId, Entry>, zone: ZoneId): Slot {
    if zone in entries then Slot(zone, entries[zone].serial, entries[zone].records) else Slot(zone, 0, [])
  }

  ghost predicate Newer(order: seq<ZoneId>, entries: map<ZoneId, Entry>, i: nat, j: nat)
    requires i < |order| && j < |order|
  { StampOf(entries, order[j]) < StampOf(entries, order[i]) }

  ghost predicate Descending(order: seq<ZoneId>, entries: map<ZoneId, Entry>) {
    forall i, j | 0 <= i < j < |order| :: Newer(order, entries, i, j)
  }

  /** `order` lists the cached zones, most recently used first. */
  ghost predicate Ranks(order: seq<ZoneId>, entries: map<ZoneId, Entry>, clock: nat) {
    Ranked(order, entries, clock) == true
  }

  ghost predicate Ranked(order: seq<ZoneId>, entries: map<ZoneId, Entry>, clock: nat) {
    && (forall z :: z in order <==> z in entries)
    && Descending(order, entries)
    && (forall z | z in entries :: StampOf(entries, z) < clock)
  }

  ghost function Slots(order: seq<ZoneId>, entries: map<ZoneId, Entry>): (out: seq<Slot>)
    ensures |out| == |order| && forall i | 0 <= i < |order| :: out[i] == SlotOf(entries, order[i])
  {
    seq(|order|, i requires 0 <= i < |order| => SlotOf(entries, order[i]))
  }

  lemma SlotsCons(zone: ZoneId, rest: seq<ZoneId>, entries: map<ZoneId, Entry>)
    ensures Slots([zone] + rest, entries) == [SlotOf(entries, zone)] + Slots(rest, entries)
  {
  }

  function DropId(order: seq<ZoneId>, zone: ZoneId): (out: seq<ZoneId>)
    ensures forall z :: z in out <==> z in order && z != zone
  {
    if order == [] then []
    else if order[0] == zone then DropId(order[1..], zone)
    else [order[0]] + DropId(order[1..], zone)
  }

  lemma DescendingRest(order: seq<ZoneId>, entries: map<ZoneId, Entry>)
    requires order != [] && Descending(order, entries)
    ensures Descending(order[1..], entries)
    ensures forall z | z in order[1..] :: StampOf(entries, z) < StampOf(entries, order[0])
  {
    forall i, j | 0 <= i < j < |order[1..]| ensures Newer(order[1..], entries, i, j) {
      assert Newer(order, entries, i + 1, j + 1);
    }
    forall z | z in order[1..] ensures StampOf(entries, z) < StampOf(entries, order[0]) {
      var j :| 0 <= j < |order[1..]| && order[1..][j] == z;
      assert Newer(order, entries, 0, j + 1);
    }
  }

  lemma DescendingCons(zone: ZoneId, rest: seq<ZoneId>, entries: map<ZoneId, Entry>)
    requires Descending(rest, entries) && forall z | z in rest :: StampOf(entries, z) < StampOf(entries, zone)
    ensures Descending([zone] + rest, entries)
  {
    var out := [zone] + rest;
    forall i, j | 0 <= i < j < |out| ensures Newer(out, entries, i, j) {
      assert rest[j - 1] in rest;
      if i > 0 { assert Newer(rest, entries, i - 1, j - 1); }
    }
  }

  lemma {:induction false} DropDescends(order: seq<ZoneId>, entries: map<ZoneId, Entry>, zone: ZoneId)
    requires Descending(order, entries)
    ensures Descending(DropId(order, zone), entries)
  {
    if order != [] {
      DescendingRest(order, entries);
      DropDescends(order[1..], entries, zone);
      if order[0] != zone { DescendingCons(order[0], DropId(order[1..], zone), entries); }
    }
  }

  lemma {:induction false} DropSlots(order: seq<ZoneId>, entries: map<ZoneId, Entry>, zone: ZoneId)
    ensures Drop(Slots(order, entries), zone) == Slots(DropId(order, zone), entries)
  {
    if order == [] {
      assert Slots(order, entries) == [];
    } else {
      assert Slots(order, entries)[1..] == Slots(order[1..], entries);
      DropSlots(order[1..], entries, zone);
      SlotsCons(order[0], DropId(order[1..], zone), entries);
    }
  }

  lemma {:induction false} FindRanked(order: seq<ZoneId>, entries: map<ZoneId, Entry>, zone: ZoneId)
    ensures Find(Slots(order, entries), zone) == if zone in order then Some(SlotOf(entries, zone)) else None
  {
    if order != [] {
      assert Slots(order, entries)[1..] == Slots(order[1..], entries);
      FindRanked(order[1..], entries, zone);
      assert order == [order[0]] + order[1..];
    }
  }

  lemma FindEntry(order: seq<ZoneId>, entries: map<ZoneId, Entry>, clock: nat, zone: ZoneId)
    requires Ranks(order, entries, clock)
    ensures Find(Slots(order, entries), zone) == if zone in entries then Some(SlotOf(entries, zone)) else None
    ensures |order| == |entries|
  {
    FindRanked(order, entries, zone);
    RankSize(order, entries, clock);
    assert Ranked(order, entries, clock);
  }

  lemma SameStamps(order: seq<ZoneId>, a: map<ZoneId, Entry>, b: map<ZoneId, Entry>)
    requires Descending(order, a)
    requires forall z | z in order :: StampOf(a, z) == StampOf(b, z) && SlotOf(a, z) == SlotOf(b, z)
    ensures Descending(order, b) && Slots(order, a) == Slots(order, b)
  {
    forall i, j | 0 <= i < j < |order| ensures Newer(order, b, i, j) {
      assert order[i] in order && order[j] in order && Newer(order, a, i, j);
    }
    forall i | 0 <= i < |order| ensures Slots(order, a)[i] == Slots(order, b)[i] { assert order[i] in order; }
  }

  /** Stamping a zone with the clock moves it to the front of the order. */
  lemma StampRanks(order: seq<ZoneId>, entries: map<ZoneId, Entry>, clock: nat, zone: ZoneId, e: Entry)
    requires Ranks(order, entries, clock) && e.lastUsed == clock
    ensures Ranks([zone] + DropId(order, zone), entries[zone := e], clock + 1)
    ensures Slots([zone] + DropId(order, zone), entries[zone := e])
         == [Slot(zone, e.serial, e.records)] + Drop(Slots(order, entries), zone)
  {
    var rest, grown := DropId(order, zone), entries[zone := e];
    DropDescends(order, entries, zone);
    DropSlots(order, entries, zone);
    SameStamps(rest, entries, grown);
    DescendingCons(zone, rest, grown);
    SlotsCons(zone, rest, grown);
  }

  /** The zone with the smallest stamp is the last of the order. */
  lemma LastIsOldest(order: seq<ZoneId>, entries: map<ZoneId, Entry>, clock: nat, zone: ZoneId)
    requires Ranks(order, entries, clock) && zone in entries
    requires forall z | z in entries :: StampOf(entries, zone) <= StampOf(entries, z)
    ensures order != [] && order[|order| - 1] == zone
  {
    var n := |order| - 1;
    var i :| 0 <= i < |order| && order[i] == zone;
    assert order[n] in order;
    assert i < n ==> Newer(order, entries, i, n);
  }

  lemma FrontDescends(order: seq<ZoneId>, entries: map<ZoneId, Entry>)
    requires order != [] && Descending(order, entries)
    ensures Descending(order[..|order| - 1], entries)
    ensures order[|order| - 1] !in order[..|order| - 1]
  {
    var n := |order| - 1;
    forall i, j | 0 <= i < j < n ensures Newer(order[..n], entries, i, j) { assert Newer(order, entries, i, j); }
    forall i | 0 <= i < n ensures order[i] != order[n] { assert Newer(order, entries, i, n); }
  }

  /** Evicting the last of the order. */
  lemma EvictRanks(order: seq<ZoneId>, entries: map<ZoneId, Entry>, clock: nat, zone: ZoneId)
    requires Ranks(order, entries, clock) && order != [] && order[|order| - 1] == zone
    ensures Ranks(order[..|order| - 1], entries - {zone}, clock)
    ensures Slots(order[..|order| - 1], entries - {zone}) == Slots(order, entries)[..|order| - 1]
  {
    var rest := order[..|order| - 1];
    FrontDescends(order, entries);
    assert order == rest + [zone];
    SameStamps(rest, entries, entries - {zone});
    assert Slots(rest, entries) == Slots(order, entries)[..|order| - 1];
  }

  lemma {:induction false} RankSize(order: seq<ZoneId>, entries: map<ZoneId, Entry>, clock: nat)
    requires Ranks(order, entries, clock)
    ensures |order| == |entries|
    decreases |order|
  {
    if order == [] {
      assert entries.Keys == {} by { assert forall z :: z !in entries; }
      assert entries == map[];
    } else {
      var zone := order[|order| - 1];
      EvictRanks(order, entries, clock, zone);
      RankSize(order[..|order| - 1], entries - {zone}, clock);
      assert (entries - {zone}).Keys == entries.Keys - {zone};
      assert zone in order;
    }
  }

  lemma SizeGrows(entries: map<ZoneId, Entry>, zone: ZoneId, e: Entry)
    ensures |entries[zone := e]| == |entries| + if zone in entries then 0 else 1
  {
    assert entries[zone := e].Keys == entries.Keys + {zone};
  }

  method Pick(zones: set<ZoneId>) returns (z: ZoneId)
    requires zones != {}
    ensures z in zones
  {
    z :| z in zones;
  }

  class ZoneCache {
    var entries: map<ZoneId, Entry>
    var clock: nat
    ghost var order: seq<ZoneId>

    ghost predicate Valid()
      reads this
    { Ranks(order, entries, clock) && |entries| <= MAX_ENTRIES }

    /** The cached zones in order of use. */
    ghost function List(): seq<Slot>
      requires Valid()
      reads this
    { Slots(order, entries) }

    constructor ()
      ensures Valid() && List() == []
    {
      entries, clock, order := map[], 0, [];
    }

    /** Write the zone's entry with the next stamp. */
    method Stamp(zone: ZoneId, serial: int, records: seq<Row>)
      requires Valid() && (zone in entries || |entries| < MAX_ENTRIES)
      modifies this
      ensures Valid() && List() == [Slot(zone, serial, records)] + Drop(old(List()), zone)
    {
      var e := Entry(serial, records, clock);
      ghost var front := [zone] + DropId(order, zone);
      var grown := entries[zone := e];
      StampRanks(order, entries, clock, zone, e);
      SizeGrows(entries, zone, e);
      entries, clock, order := grown, clock + 1, front;
    }

    method Lookup(zone: ZoneId, serial: int) returns (r: Option<seq<Row>>)
      requires Valid()
      modifies this
      ensures Valid()
      ensures r == Hit(old(List()), zone, serial) && List() == Touched(old(List()), zone, serial)
    {
      FindEntry(order, entries, clock, zone);
      if zone !in entries || entries[zone].serial != serial { return None; }
      r := Some(entries[zone].records);
      Stamp(zone, serial, entries[zone].records);
    }

    /** The entry with the smallest stamp. */
    method LeastRecent() returns (lru: ZoneId)
      requires Valid() && |entries| > 0
      ensures lru in entries && forall z | z in entries :: StampOf(entries, lru) <= StampOf(entries, z)
    {
      lru := Pick(entries.Keys);
      var left := entries.Keys - {lru};
      while left != {}
        invariant left <= entries.Keys && lru in entries
        invariant forall z | z in entries && z !in left :: StampOf(entries, lru) <= StampOf(entries, z)
        decreases left
      {
        var z := Pick(left);
        if entries[z].lastUsed < entries[lru].lastUsed { lru := z; }
        left := left - {z};
      }
    }

    method Evict()
      requires Valid() && |entries| > 0
      modifies this
      ensures Valid() && |entries| == |old(entries)| - 1
      ensures old(List()) != [] && List() == old(List())[..|old(List())| - 1]
    {
      var lru := LeastRecent();
      LastIsOldest(order, entries, clock, lru);
      EvictRanks(order, entries, clock, lru);
      RankSize(order[..|order| - 1], entries - {lru}, clock);
      RankSize(order, entries, clock);
      order := order[..|order| - 1];
      entries := entries - {lru};
    }

    method Store(zone: ZoneId, serial: int, records: seq<Row>)
      requires Valid()
      modifies this
      ensures Valid() && List() == Put(old(List()), Slot(zone, serial, records))
    {
      FindEntry(order, entries, clock, zone);
      PutList(List(), Slot(zone, serial, records));
      if zone !in entries && |entries| >= MAX_ENTRIES { Evict(); }
      Stamp(zone, serial, records);
    }
  }

  ghost predicate Crowded(list: seq<Slot>, zone: ZoneId) { Find(list, zone).None? && |list| >= MAX_ENTRIES }

  /** A full list makes room for a new zone by losing its last. */
  lemma PutList(list: seq<Slot>, slot: Slot)
    ensures Put(list, slot) == [slot] + Drop(if Crowded(list, slot.zone) then list[..|list| - 1] else list, slot.zone)
  {
    if Crowded(list, slot.zone) { DropAbsent(list[..|list| - 1], slot.zone); }
  }

  lemma {:induction false} DropAbsent(list: seq<Slot>, zone: ZoneId)
    requires forall s | s in list :: s.zone != zone
    ensures Drop(list, zone) == list
  {
    if list != [] {
      assert list[0] in list;
      DropAbsent(list[1..], zone);
      assert [list[0]] + list[1..] == list;
    }
  }

  // ---- Transfers and commits interleaved ------------------------------------------------------------------

  /** How far one transfer has come: it reads the zone row, then the cache, and on a miss the
      record table, which it then stores under the serial it first read. */
  datatype Reader =
    | Asked(zone: ZoneId, serial: int)
    | Missed(zone: ZoneId, serial: int)
    | Loaded(zone: ZoneId, serial: int, records: seq<Row>)
    | Answered(zone: ZoneId, serial: int, records: seq<Row>)

  /** Every zone's run so far, the cache in order of use, and the transfers under way. */
  datatype World = World(zones: map<ZoneId, seq<State>>, cache: seq<Slot>, readers: map<int, Reader>)

  ghost predicate Sane(w: World) { forall z | z in w.zones :: IsRun(w.zones[z]) }

  ghost predicate Last(w: World, z: ZoneId, s: State) {
    z in w.zones && w.zones[z] != [] && w.zones[z][|w.zones[z]| - 1] == s
  }

  ghost predicate Create(w: World, w': World, z: ZoneId, s: State) {
    z !in w.zones && IsRun([s]) && w' == w.(zones := w.zones[z := [s]])
  }

  ghost predicate CommitOn(w: World, w': World, z: ZoneId, s: State) {
    z in w.zones && IsRun(w.zones[z] + [s]) && w' == w.(zones := w.zones[z := w.zones[z] + [s]])
  }

  ghost predicate Ask(w: World, w': World, r: int, z: ZoneId, s: State) {
    r !in w.readers && Last(w, z, s) && w' == w.(readers := w.readers[r := Asked(z, s.serial)])
  }

  ghost predicate LookUp(w: World, w': World, r: int) {
    && r in w.readers && w.readers[r].Asked?
    && var z, s := w.readers[r].zone, w.readers[r].serial;
       match Hit(w.cache, z, s)
       case Some(records) =>
         w' == w.(cache := Touched(w.cache, z, s), readers := w.readers[r := Answered(z, s, records)])
       case None => w' == w.(readers := w.readers[r := Missed(z, s)])
  }

  ghost predicate Load(w: World, w': World, r: int, s: State) {
    && r in w.readers && w.readers[r].Missed? && Last(w, w.readers[r].zone, s)
    && w' == w.(readers := w.readers[r := Loaded(w.readers[r].zone, w.readers[r].serial, s.rows)])
  }

  ghost predicate Save(w: World, w': World, r: int) {
    && r in w.readers && w.readers[r].Loaded?
    && var t := w.readers[r];
       w' == w.(cache := Put(w.cache, Slot(t.zone, t.serial, t.records)),
                readers := w.readers[r := Answered(t.zone, t.serial, t.records)])
  }

  ghost predicate Next(w: World, w': World) {
    || (exists z, s :: Create(w, w', z, s))
    || (exists z, s :: CommitOn(w, w', z, s))
    || (exists r, z, s :: Ask(w, w', r, z, s))
    || (exists r :: LookUp(w, w', r))
    || (exists r, s :: Load(w, w', r, s))
    || (exists r :: Save(w, w', r))
  }

  ghost predicate Begins(w: World) { w == World(map[], [], map[]) }

  ghost predicate StepFrom(ws: seq<World>, i: nat)
    requires i + 1 < |ws|
  { Next(ws[i], ws[i + 1]) }

  /** An interleaving of any number of transfers, commits and zone creations. */
  ghost predicate IsTrace(ws: seq<World>) {
    ws != [] && Begins(ws[0]) && forall i | 0 <= i < |ws| - 1 :: StepFrom(ws, i)
  }

  /** The records are the zone's at some serial from `serial` up to its present one. */
  ghost predicate Dated(h: seq<State>, serial: int, records: seq<Row>) {
    exists i | 0 <= i < |h| :: serial <= h[i].serial && h[i].rows == records
  }

  ghost predicate Known(w: World, z: ZoneId, serial: int) {
    z in w.zones && w.zones[z] != [] && w.zones[z][0].serial <= serial <= w.zones[z][|w.zones[z]| - 1].serial
  }

  ghost predicate SlotOk(w: World, slot: Slot) {
    Known(w, slot.zone, slot.serial) && Dated(w.zones[slot.zone], slot.serial, slot.records)
  }

  ghost predicate ReaderOk(w: World, t: Reader) {
    && Known(w, t.zone, t.serial)
    && (t.Loaded? || t.Answered? ==> Dated(w.zones[t.zone], t.serial, t.records))
  }

  ghost predicate CacheOk(w: World) {
    && Sane(w)
    && (forall slot | slot in w.cache :: SlotOk(w, slot))
    && (forall r | r in w.readers :: ReaderOk(w, w.readers[r]))
  }

  /** Zones only grow. */
  ghost predicate Grows(w: World, w': World) {
    forall z | z in w.zones :: z in w'.zones && w.zones[z] <= w'.zones[z]
  }

  lemma DatedGrows(h: seq<State>, h': seq<State>, serial: int, records: seq<Row>)
    requires Dated(h, serial, records) && h <= h'
    ensures Dated(h', serial, records)
  {
    var i :| 0 <= i < |h| && serial <= h[i].serial && h[i].rows == records;
    assert h'[i] == h[i];
  }

  lemma KnownGrows(w: World, w': World, z: ZoneId, serial: int)
    requires Known(w, z, serial) && Grows(w, w') && Sane(w')
    ensures Known(w', z, serial)
  {
    var h, h' := w.zones[z], w'.zones[z];
    assert h'[0] == h[0] && h'[|h| - 1] == h[|h| - 1];
    RunSerial(h', |h| - 1);
    RunSerial(h', |h'| - 1);
  }

  lemma StaysOk(w: World, w': World)
    requires CacheOk(w) && Grows(w, w') && Sane(w')
    ensures forall slot | slot in w.cache :: SlotOk(w', slot)
    ensures forall r | r in w.readers :: ReaderOk(w', w.readers[r])
  {
    forall slot | slot in w.cache ensures SlotOk(w', slot) {
      KnownGrows(w, w', slot.zone, slot.serial);
      DatedGrows(w.zones[slot.zone], w'.zones[slot.zone], slot.serial, slot.records);
    }
    forall r | r in w.readers ensures ReaderOk(w', w.readers[r]) {
      var t := w.readers[r];
      assert ReaderOk(w, t);
      KnownGrows(w, w', t.zone, t.serial);
      if t.Loaded? || t.Answered? { DatedGrows(w.zones[t.zone], w'.zones[t.zone], t.serial, t.records); }
    }
  }

  lemma ZoneSteps(w: World, w': World, z: ZoneId, s: State)
    requires CacheOk(w) && (Create(w, w', z, s) || CommitOn(w, w', z, s))
    ensures CacheOk(w')
  {
    StaysOk(w, w');
  }

  lemma LastKnown(w: World, z: ZoneId, s: State)
    requires Sane(w) && Last(w, z, s)
    ensures Known(w, z, s.serial)
    ensures forall serial | Known(w, z, serial) :: Dated(w.zones[z], serial, s.rows)
  {
    var h := w.zones[z];
    RunSerial(h, |h| - 1);
    assert h[|h| - 1] == s;
  }

  lemma ReaderSteps(w: World, w': World, r: int, z: ZoneId, s: State)
    requires CacheOk(w) && (Ask(w, w', r, z, s) || Load(w, w', r, s))
    ensures CacheOk(w')
  {
    StaysOk(w, w');
    var zone := w'.readers[r].zone;
    LastKnown(w, zone, s);
    if r in w.readers { assert ReaderOk(w, w.readers[r]); }
  }

  lemma CacheSteps(w: World, w': World, r: int)
    requires CacheOk(w) && (LookUp(w, w', r) || Save(w, w', r))
    ensures CacheOk(w')
  {
    StaysOk(w, w');
    assert ReaderOk(w, w.readers[r]);
    var t := w.readers[r];
    assert forall slot | slot in w'.cache ::
        slot in w.cache || (t.Loaded? && slot == Slot(t.zone, t.serial, t.records));
  }

  lemma NextOk(w: World, w': World)
    requires CacheOk(w) && Next(w, w')
    ensures CacheOk(w')
  {
    if z, s :| Create(w, w', z, s) {
      ZoneSteps(w, w', z, s);
    } else if z, s :| CommitOn(w, w', z, s) {
      ZoneSteps(w, w', z, s);
    } else if r, z, s :| Ask(w, w', r, z, s) {
      ReaderSteps(w, w', r, z, s);
    } else if r :| LookUp(w, w', r) {
      CacheSteps(w, w', r);
    } else if r, s :| Load(w, w', r, s) {
      ReaderSteps(w, w', r, w.readers[r].zone, s);
    } else {
      var r :| Save(w, w', r);
      CacheSteps(w, w', r);
    }
  }

  /** In every interleaving, whatever the cache or a transfer holds for serial s are the zone's
      records at some serial from s up to the present one. */
  lemma {:induction false} CacheSound(ws: seq<World>, n: nat)
    requires IsTrace(ws) && n < |ws|
    ensures CacheOk(ws[n])
  {
    if n > 0 {
      CacheSound(ws, n - 1);
      assert StepFrom(ws, n - 1);
      NextOk(ws[n - 1], ws[n]);
    }
  }

  lemma PresentIsExact(h: seq<State>, records: seq<Row>)
    requires IsRun(h) && Dated(h, h[|h| - 1].serial, records)
    ensures records == h[|h| - 1].rows
  {
    var i :| 0 <= i < |h| && h[|h| - 1].serial <= h[i].serial && h[i].rows == records;
    RunSerial(h, i);
    RunSerial(h, |h| - 1);
  }

  /** A hit taken while the zone is still at the serial asked for returns exactly its rows. */
  lemma FreshHitExact(ws: seq<World>, n: nat, z: ZoneId, s: State, records: seq<Row>)
    requires IsTrace(ws) && n < |ws| && Last(ws[n], z, s) && Hit(ws[n].cache, z, s.serial) == Some(records)
    ensures records == s.rows
  {
    CacheSound(ws, n);
    var slot := Find(ws[n].cache, z).value;
    assert SlotOk(ws[n], slot);
    PresentIsExact(ws[n].zones[z], records);
  }

  /** A transfer's answer under serial s, however it was obtained, is healed by the incremental
      replies that follow: applied to the answer, the steps from s give the current records. */
  lemma AnswerHeals(ws: seq<World>, n: nat, r: int, c: nat)
    requires IsTrace(ws) && n < |ws| && r in ws[n].readers && ws[n].readers[r].Answered?
    requires var t := ws[n].readers[r];
             && t.zone in ws[n].zones && IsRun(ws[n].zones[t.zone])
             && c + 1 < |ws[n].zones[t.zone]| && ws[n].zones[t.zone][c].serial == t.serial
             && forall m | c < m < |ws[n].zones[t.zone]| :: Transfer.SettledAt(ws[n].zones[t.zone], m)
    ensures var t := ws[n].readers[r];
            var h := ws[n].zones[t.zone];
            Transfer.Applied(WireSet(Rrs(t.records)), Transfer.Sent(h, c, |h| - 1)) == WireSet(Rrs(h[|h| - 1].rows))
  {
    CacheSound(ws, n);
    var t := ws[n].readers[r];
    assert ReaderOk(ws[n], t);
    DatedHeals(ws[n].zones[t.zone], c, t.serial, t.records);
  }

  lemma DatedHeals(h: seq<State>, c: nat, serial: int, records: seq<Row>)
    requires IsRun(h) && c + 1 < |h| && h[c].serial == serial && Dated(h, serial, records)
    requires forall m | c < m < |h| :: Transfer.SettledAt(h, m)
    ensures Transfer.Applied(WireSet(Rrs(records)), Transfer.Sent(h, c, |h| - 1)) == WireSet(Rrs(h[|h| - 1].rows))
  {
    var i :| 0 <= i < |h| && serial <= h[i].serial && h[i].rows == records;
    RunSerial(h, i);
    RunSerial(h, c);
    HealsFrom(h, c, i);
  }

  lemma HealsFrom(h: seq<State>, c: nat, m: nat)
    requires IsRun(h) && c <= m < |h| && c + 1 < |h| && forall n | c < n < |h| :: Transfer.SettledAt(h, n)
    ensures Transfer.Applied(WireSet(Rrs(h[m].rows)), Transfer.Sent(h, c, |h| - 1)) == WireSet(Rrs(h[|h| - 1].rows))
  {
    Transfer.ReplayConverges(h, c, m, |h| - 1);
  }

  // ---- Exactly when nothing is stored under the wrong serial ------------------------------------------------

  /** The records are the zone's at exactly this serial. */
  ghost predicate Exact(w: World, z: ZoneId, serial: int, records: seq<Row>) {
    && Known(w, z, serial)
    && var h := w.zones[z];
       serial - h[0].serial < |h| && h[serial - h[0].serial].rows == records
  }

  ghost predicate ReaderExact(w: World, t: Reader) {
    t.Loaded? || t.Answered? ==> Exact(w, t.zone, t.serial, t.records)
  }

  /** Every cached and every loaded record list is the zone's at the serial it goes under. */
  ghost predicate AllExact(w: World) {
    && (forall slot | slot in w.cache :: Exact(w, slot.zone, slot.serial, slot.records))
    && (forall r | r in w.readers :: ReaderExact(w, w.readers[r]))
  }

  /** When a transfer reads the record table, the zone's rows are still those of the serial the
      transfer began with. */
  ghost predicate Timely(w: World, r: int, s: State) {
    r in w.readers && Exact(w, w.readers[r].zone, w.readers[r].serial, s.rows)
  }

  ghost predicate LoadsTimely(ws: seq<World>, i: nat)
    requires i + 1 < |ws|
  { forall r, s | Load(ws[i], ws[i + 1], r, s) :: Timely(ws[i], r, s) }

  lemma ExactGrows(w: World, w': World, z: ZoneId, serial: int, records: seq<Row>)
    requires Exact(w, z, serial, records) && Grows(w, w') && Sane(w')
    ensures Exact(w', z, serial, records)
  {
    KnownGrows(w, w', z, serial);
    var c := serial - w.zones[z][0].serial;
    assert w'.zones[z][0] == w.zones[z][0] && w'.zones[z][c] == w.zones[z][c];
  }

  lemma StaysExact(w: World, w': World)
    requires AllExact(w) && Grows(w, w') && Sane(w')
    ensures forall slot | slot in w.cache :: Exact(w', slot.zone, slot.serial, slot.records)
    ensures forall r | r in w.readers :: ReaderExact(w', w.readers[r])
  {
    forall slot | slot in w.cache ensures Exact(w', slot.zone, slot.serial, slot.records) {
      ExactGrows(w, w', slot.zone, slot.serial, slot.records);
    }
    forall r | r in w.readers ensures ReaderExact(w', w.readers[r]) {
      var t := w.readers[r];
      if t.Loaded? || t.Answered? { ExactGrows(w, w', t.zone, t.serial, t.records); }
    }
  }

  lemma CacheStepsExact(w: World, w': World, r: int)
    requires Sane(w) && AllExact(w) && (LookUp(w, w', r) || Save(w, w', r))
    ensures AllExact(w')
  {
    StaysExact(w, w');
    var t := w.readers[r];
    assert ReaderExact(w, t);
    assert forall slot | slot in w'.cache ::
        slot in w.cache || (t.Loaded? && slot == Slot(t.zone, t.serial, t.records));
  }

  lemma LoadExact(w: World, w': World, r: int, s: State)
    requires Sane(w) && AllExact(w) && Load(w, w', r, s) && Timely(w, r, s)
    ensures AllExact(w')
  {
    StaysExact(w, w');
  }

  lemma QuietExact(w: World, w': World)
    requires AllExact(w) && Grows(w, w') && Sane(w') && w'.cache == w.cache
    requires forall r | r in w'.readers :: (r in w.readers && w'.readers[r] == w.readers[r]) || w'.readers[r].Asked?
    ensures AllExact(w')
  {
    StaysExact(w, w');
  }

  lemma NextExact(w: World, w': World)
    requires CacheOk(w) && AllExact(w) && Next(w, w') && forall r, s | Load(w, w', r, s) :: Timely(w, r, s)
    ensures AllExact(w')
  {
    assert Sane(w') by { NextOk(w, w'); }
    if r, s :| Load(w, w', r, s) {
      LoadExact(w, w', r, s);
    } else if r :| LookUp(w, w', r) || Save(w, w', r) {
      CacheStepsExact(w, w', r);
    } else {
      QuietExact(w, w');
    }
  }

  lemma {:induction false} TimelyIsExact(ws: seq<World>, n: nat)
    requires IsTrace(ws) && n < |ws| && forall i | 0 <= i < |ws| - 1 :: LoadsTimely(ws, i)
    ensures AllExact(ws[n])
  {
    if n > 0 {
      TimelyIsExact(ws, n - 1);
      CacheSound(ws, n - 1);
      assert StepFrom(ws, n - 1) && LoadsTimely(ws, n - 1);
      NextExact(ws[n - 1], ws[n]);
    }
  }

  /** In an interleaving nothing is ever held under a serial whose rows it is not exactly when
      every transfer that misses the cache reads the record table while the zone's rows are still
      those of its serial. */
  lemma ExactTrace(ws: seq<World>)
    requires IsTrace(ws)
    ensures (forall n | 0 <= n < |ws| :: AllExact(ws[n])) <==> forall i | 0 <= i < |ws| - 1 :: LoadsTimely(ws, i)
  {
    if forall i | 0 <= i < |ws| - 1 :: LoadsTimely(ws, i) {
      forall n | 0 <= n < |ws| ensures AllExact(ws[n]) { TimelyIsExact(ws, n); }
    }
    if forall n | 0 <= n < |ws| :: AllExact(ws[n]) {
      forall i | 0 <= i < |ws| - 1 ensures LoadsTimely(ws, i) {
        forall r, s | Load(ws[i], ws[i + 1], r, s) ensures Timely(ws[i], r, s) {
          assert AllExact(ws[i + 1]) && ReaderExact(ws[i + 1], ws[i + 1].readers[r]);
        }
      }
    }
  }

  /** A load with no commit since the transfer began is in time. */
  lemma SameSerialTimely(ws: seq<World>, i: nat, r: int, s: State)
    requires IsTrace(ws) && i + 1 < |ws| && Load(ws[i], ws[i + 1], r, s) && s.serial == ws[i].readers[r].serial
    ensures Timely(ws[i], r, s)
  {
    CacheSound(ws, i);
    var t := ws[i].readers[r];
    assert ReaderOk(ws[i], t);
    RunSerial(ws[i].zones[t.zone], |ws[i].zones[t.zone]| - 1);
  }

  /** A commit between reading the zone row and reading the records leaves an entry tagged with a
      serial whose records it does not hold. */
  lemma StaleTag(z: ZoneId, a: State, b: State) returns (ws: seq<World>)
    requires IsRun([a]) && IsRun([a, b]) && a.rows != b.rows
    ensures IsTrace(ws)
    ensures Hit(ws[|ws| - 1].cache, z, a.serial) == Some(b.rows) && ws[|ws| - 1].zones == map[z := [a, b]]
  {
    var w0 := World(map[], [], map[]);
    var w1 := w0.(zones := map[z := [a]]);
    var w2 := w1.(readers := map[0 := Asked(z, a.serial)]);
    var w3 := w2.(readers := map[0 := Missed(z, a.serial)]);
    var w4 := w3.(zones := map[z := [a, b]]);
    var w5 := w4.(readers := map[0 := Loaded(z, a.serial, b.rows)]);
    var w6 := w5.(cache := [Slot(z, a.serial, b.rows)], readers := map[0 := Answered(z, a.serial, b.rows)]);
    ws := [w0, w1, w2, w3, w4, w5, w6];
    assert Create(w0, w1, z, a);
    assert Ask(w1, w2, 0, z, a);
    assert LookUp(w2, w3, 0);
    assert [a] + [b] == [a, b];
    assert CommitOn(w3, w4, z, b);
    assert Load(w4, w5, 0, b);
    assert Put([], Slot(z, a.serial, b.rows)) == [Slot(z, a.serial, b.rows)];
    assert Save(w5, w6, 0);
    forall i | 0 <= i < |ws| - 1 ensures StepFrom(ws, i) {
      assert i == 0 || i == 1 || i == 2 || i == 3 || i == 4 || i == 5;
    }
  }
}
