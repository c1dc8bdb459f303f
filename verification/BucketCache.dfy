/** The cached start and end of a bucket against the events in the table. */
module BucketCache {
  import opened Events
  import opened StoreSpec

  // ---- What the tables guarantee ----

  ghost predicate Valid(db: Db) {
    && DistinctBuckets(db.buckets)
    && (forall b :: b in db.buckets ==> b.bid < db.nextBucket)
    && ValidRows(db)
  }

  ghost predicate ValidRows(db: Db) {
    && (forall i, j :: 0 <= i < j < |db.events| ==> db.events[i].id != db.events[j].id)
    && (forall r :: r in db.events ==> r.bucketrow < db.nextBucket && r.id < db.nextEvent)
  }

  function RowOf(c: Bucket): BucketRow { BucketRow(c.bid, c.id, c.info) }

  /** The cache has an entry for each bucket row, and no other. */
  ghost predicate Entries(st: Store) {
    && (forall b :: b in st.db.buckets ==> b.name in st.cache && RowOf(st.cache[b.name]) == b)
    && (forall name :: name in st.cache ==> st.cache[name].id == name && RowOf(st.cache[name]) in st.db.buckets)
  }

  /** [start, end] is exactly the extent of the rows of `bid`. */
  ghost predicate IsExtent(events: seq<EventRow>, bid: int, start: Option<int>, end: Option<int>) {
    && IsBound(events, bid, start, end)
    && (start.Some? ==> exists r :: r in events && r.bucketrow == bid && r.start == start.value)
    && (end.Some? ==> exists r :: r in events && r.bucketrow == bid && r.end == end.value)
  }

  /** [start, end] holds every row of `bid`. */
  ghost predicate IsBound(events: seq<EventRow>, bid: int, start: Option<int>, end: Option<int>) {
    forall r :: r in events && r.bucketrow == bid ==>
      start.Some? && end.Some? && start.value <= r.start && r.end <= end.value
  }

  /** The cache says what get_stored_buckets would recompute (see AgreesIff). */
  ghost predicate Agrees(st: Store) {
    Valid(st.db) && Entries(st) &&
    forall name :: name in st.cache ==> var c := st.cache[name]; IsExtent(st.db.events, c.bid, c.start, c.end)
  }

  /** The cached extents hold every event, though they may be too wide. */
  ghost predicate Bounded(st: Store) {
    Valid(st.db) && Entries(st) &&
    forall name :: name in st.cache ==> var c := st.cache[name]; IsBound(st.db.events, c.bid, c.start, c.end)
  }

  lemma AgreesIsBounded(st: Store)
    requires Agrees(st)
    ensures Bounded(st)
  {}

  lemma {:induction false} ExtentOfRows(events: seq<EventRow>, bid: int)
    ensures IsExtent(events, bid, MinStart(events, bid), MaxEnd(events, bid))
  {
    if events != [] {
      ExtentOfRows(events[1..], bid);
      assert events == [events[0]] + events[1..];
    }
  }

  lemma ExtentIsUnique(events: seq<EventRow>, bid: int, start: Option<int>, end: Option<int>)
    requires IsExtent(events, bid, start, end)
    ensures start == MinStart(events, bid) && end == MaxEnd(events, bid)
  {
    ExtentOfRows(events, bid);
  }

  lemma {:induction false} StoredBucketsFacts(buckets: seq<BucketRow>, events: seq<EventRow>)
    requires forall i, j :: 0 <= i < j < |buckets| ==> buckets[i].name != buckets[j].name
    ensures forall b :: b in buckets ==>
            b.name in StoredBuckets(buckets, events) && StoredBuckets(buckets, events)[b.name] == Stored(b, events)
    ensures forall name :: name in StoredBuckets(buckets, events) ==>
              exists b :: b in buckets && b.name == name && Stored(b, events) == StoredBuckets(buckets, events)[name]
  {
    if buckets != [] {
      var n := |buckets| - 1;
      StoredBucketsFacts(buckets[..n], events);
      assert buckets == buckets[..n] + [buckets[n]];
      assert forall i :: 0 <= i < n ==> buckets[..n][i].name != buckets[n].name;
    }
  }

  lemma AgreesIff(st: Store)
    requires Valid(st.db)
    ensures Agrees(st) <==> st.cache == StoredBuckets(st.db.buckets, st.db.events)
  {
    var stored := StoredBuckets(st.db.buckets, st.db.events);
    StoredBucketsFacts(st.db.buckets, st.db.events);
    if Agrees(st) {
      forall name | name in st.cache ensures name in stored && st.cache[name] == stored[name] {
        var c := st.cache[name];
        assert RowOf(c) in st.db.buckets;
        ExtentIsUnique(st.db.events, c.bid, c.start, c.end);
      }
    }
    if st.cache == stored {
      forall name | name in st.cache
        ensures var c := st.cache[name]; IsExtent(st.db.events, c.bid, c.start, c.end)
      {
        var b :| b in st.db.buckets && b.name == name;
        ExtentOfRows(st.db.events, b.bid);
      }
    }
  }

  // ---- Rows ----

  lemma {:induction false} WithoutMembers(rows: seq<EventRow>, id: int)
    ensures forall r :: r in Without(rows, id) <==> r in rows && r.id != id
    ensures (forall i, j :: 0 <= i < j < |rows| ==> rows[i].id != rows[j].id) ==>
            (forall i, j :: 0 <= i < j < |Without(rows, id)| ==> Without(rows, id)[i].id != Without(rows, id)[j].id)
  {
    if rows != [] {
      WithoutMembers(rows[1..], id);
      assert rows == [rows[0]] + rows[1..];
      var w := Without(rows[1..], id);
      if forall i, j :: 0 <= i < j < |rows| ==> rows[i].id != rows[j].id {
        forall i | 0 <= i < |w| ensures w[i].id != rows[0].id {
          assert w[i] in rows[1..];
        }
      }
    }
  }

  lemma {:induction false} WithoutAbsent(rows: seq<EventRow>, id: int)
    requires forall r :: r in rows ==> r.id != id
    ensures Without(rows, id) == rows
  {
    if rows != [] {
      assert rows == [rows[0]] + rows[1..];
      WithoutAbsent(rows[1..], id);
    }
  }

  function NewRow(db: Db, bid: int, e: Event): EventRow {
    EventRow(RowId(db, e), bid, e.timestamp, e.End(), e.data)
  }

  lemma InsertRowFacts(db: Db, bid: int, e: Event)
    requires Valid(db) && bid < db.nextBucket
    ensures var db' := InsertRow(db, bid, e);
            && Valid(db')
            && forall r :: r in db'.events <==> r == NewRow(db, bid, e) || (r in db.events && r.id != RowId(db, e))
  {
    WithoutMembers(db.events, RowId(db, e));
    var kept := Without(db.events, RowId(db, e));
    assert forall i :: 0 <= i < |kept| ==> kept[i] in kept;
  }

  /** The insert takes no row away. */
  ghost predicate Fresh(db: Db, e: Event) {
    e.id.Some? ==> forall r :: r in db.events ==> r.id != e.id.value
  }

  ghost predicate AllFresh(db: Db, bid: int, es: seq<Event>)
    decreases |es|
  {
    es == [] || (Fresh(db, es[0]) && AllFresh(InsertRow(db, bid, es[0]), bid, es[1..]))
  }

  lemma FreshKeepsRows(db: Db, bid: int, e: Event)
    requires Valid(db) && bid < db.nextBucket && Fresh(db, e)
    ensures forall r :: r in InsertRow(db, bid, e).events <==> r == NewRow(db, bid, e) || r in db.events
  {
    InsertRowFacts(db, bid, e);
  }

  lemma CachedIsNamed(st: Store, name: string)
    requires Entries(st) && name in st.cache
    ensures HasName(st.db.buckets, name)
  {
    assert RowOf(st.cache[name]).name == name;
  }

  /** Different entries belong to different bucket ids. */
  lemma EntriesKeepBids(st: Store)
    requires Valid(st.db) && Entries(st)
    ensures forall m, n :: m in st.cache && n in st.cache && st.cache[m].bid == st.cache[n].bid ==> m == n
    ensures forall n :: n in st.cache ==> st.cache[n].bid < st.db.nextBucket && st.cache[n].id == n
  {}

  /** The row of `e` joins bucket `bid`; `c` is any cached bucket, widened if it is that one. */
  lemma ExtentGrows(events: seq<EventRow>, events': seq<EventRow>, c: Bucket, bid: int, row: EventRow, e: Event)
    requires row.bucketrow == bid && row.start == e.timestamp && row.end == e.End()
    requires forall r :: r in events' ==> r == row || r in events
    requires IsBound(events, c.bid, c.start, c.end)
    ensures var c' := if c.bid == bid then Extend(c, e) else c;
            && IsBound(events', c.bid, c'.start, c'.end)
            && (IsExtent(events, c.bid, c.start, c.end) && (forall r :: r in events || r == row ==> r in events') ==>
                  IsExtent(events', c.bid, c'.start, c'.end))
  {
    var c' := if c.bid == bid then Extend(c, e) else c;
    if IsExtent(events, c.bid, c.start, c.end) && forall r :: r in events || r == row ==> r in events' {
      assert row in events';
      if c.start.Some? {
        var r :| r in events && r.bucketrow == c.bid && r.start == c.start.value;
        assert r in events';
      }
      if c.end.Some? {
        var r :| r in events && r.bucketrow == c.bid && r.end == c.end.value;
        assert r in events';
      }
    }
  }

  /** One inserted row, with its bucket's entry widened. */
  lemma InsertKeepsBounded(st: Store, name: string, e: Event)
    requires Bounded(st) && name in st.cache
    ensures var c := st.cache[name];
            var st' := Store(InsertRow(st.db, c.bid, e), st.cache[name := Extend(c, e)]);
            Bounded(st') && (Agrees(st) && Fresh(st.db, e) ==> Agrees(st'))
  {
    var c := st.cache[name];
    EntriesKeepBids(st);
    InsertRowFacts(st.db, c.bid, e);
    var st' := Store(InsertRow(st.db, c.bid, e), st.cache[name := Extend(c, e)]);
    assert Entries(st');
    var row := NewRow(st.db, c.bid, e);
    hide IsBound, IsExtent, Valid, InsertRow, Extend, Entries;
    forall n | n in st'.cache
      ensures var d := st'.cache[n]; IsBound(st'.db.events, d.bid, d.start, d.end)
      ensures var d := st'.cache[n]; Agrees(st) && Fresh(st.db, e) ==> IsExtent(st'.db.events, d.bid, d.start, d.end)
    {
      if Agrees(st) && Fresh(st.db, e) { FreshKeepsRows(st.db, c.bid, e); }
      ExtentGrows(st.db.events, st'.db.events, st.cache[n], c.bid, row, e);
      ExtendKeepsBid(c, e);
    }
  }

  lemma ExtendKeepsBid(c: Bucket, e: Event)
    ensures Extend(c, e).bid == c.bid
  {}

  lemma InsertOneThenRest(st: Store, name: string, es: seq<Event>)
    requires name in st.cache && es != []
    ensures var c := st.cache[name];
            var st1 := Store(InsertRow(st.db, c.bid, es[0]), st.cache[name := Extend(c, es[0])]);
            InsertEvents(st1, name, es[1..]).0 == InsertEvents(st, name, es).0
  {
    var c := st.cache[name];
    var b := InsertAll(InsertRow(st.db, c.bid, es[0]), Extend(c, es[0]), es[1..]).1;
    assert st.cache[name := Extend(c, es[0])][name := b] == st.cache[name := b];
  }

  lemma {:induction false} InsertAllKeepsBounded(st: Store, name: string, es: seq<Event>)
    requires Bounded(st) && name in st.cache
    ensures var st' := InsertEvents(st, name, es).0;
            Bounded(st') && (Agrees(st) && AllFresh(st.db, st.cache[name].bid, es) ==> Agrees(st'))
    decreases |es|
  {
    var c := st.cache[name];
    if es == [] {
      assert st.cache[name := c] == st.cache;
    } else {
      hide Bounded, Agrees, Fresh, InsertRow, InsertEvents, InsertAll, Extend;
      var st1 := Store(InsertRow(st.db, c.bid, es[0]), st.cache[name := Extend(c, es[0])]);
      ExtendKeepsBid(c, es[0]);
      InsertKeepsBounded(st, name, es[0]);
      InsertAllKeepsBounded(st1, name, es[1..]);
      InsertOneThenRest(st, name, es);
    }
  }

  // ---- The other operations ----

  lemma CreateKeepsEntries(st: Store, name: string, info: BucketInfo)
    requires Valid(st.db) && Entries(st)
    ensures var st' := CreateBucket(st, name, info, None).0; Valid(st'.db) && Entries(st') && name in st'.cache
  {
    EntriesKeepBids(st);
    if HasName(st.db.buckets, name) {
    } else {
      assert forall i :: 0 <= i < |st.db.buckets| ==> st.db.buckets[i] in st.db.buckets;
      assert forall n :: n in st.cache ==> RowOf(st.cache[n]).name == n;
    }
  }

  lemma CreateKeepsBounded(st: Store, name: string, info: BucketInfo)
    requires Bounded(st)
    ensures var st' := CreateBucket(st, name, info, None).0;
            name in st'.cache && Bounded(st') && (Agrees(st) ==> Agrees(st'))
  {
    CreateKeepsEntries(st, name, info);
    hide Entries, HasName;
  }

  lemma CreateWithEventsKeepsBounded(st: Store, name: string, info: BucketInfo, es: seq<Event>)
    requires Bounded(st)
    ensures var st' := CreateBucket(st, name, info, Some(es)).0;
            var st1 := CreateBucket(st, name, info, None).0;
            && Bounded(st') && name in st1.cache
            && (Agrees(st) && AllFresh(st1.db, st1.cache[name].bid, es) ==> Agrees(st'))
  {
    hide Bounded, Agrees, AllFresh, InsertEvents, HasName;
    CreateKeepsBounded(st, name, info);
    InsertAllKeepsBounded(CreateBucket(st, name, info, None).0, name, es);
  }

  lemma RenamedOrigin(buckets: seq<BucketRow>, from: string, to: string, b: BucketRow)
    requires b in Renamed(buckets, from, to)
    ensures (b in buckets && b.name != from) || (b.name == to && BucketRow(b.bid, from, b.info) in buckets)
  {
    var i :| 0 <= i < |buckets| && Renamed(buckets, from, to)[i] == b;
    assert buckets[i] in buckets;
  }

  lemma RenamedImage(buckets: seq<BucketRow>, from: string, to: string, b: BucketRow)
    requires b in buckets
    ensures BucketRow(b.bid, if b.name == from then to else b.name, b.info) in Renamed(buckets, from, to)
  {
    var i :| 0 <= i < |buckets| && buckets[i] == b;
    assert Renamed(buckets, from, to)[i] in Renamed(buckets, from, to);
  }

  lemma RenameKeepsValid(st: Store, from: string, to: string)
    requires Valid(st.db) && Entries(st)
    ensures var st' := RenameBucket(st, from, to).0; Valid(st'.db) && st'.db.events == st.db.events
  {
    hide ValidRows;
    RenameKeepsRows(st, from, to);
    var bs, bs' := st.db.buckets, RenameBucket(st, from, to).0.db.buckets;
    assert forall i :: 0 <= i < |bs| ==> bs[i] in bs;
  }

  lemma RenameKeepsRows(st: Store, from: string, to: string)
    ensures var db' := RenameBucket(st, from, to).0.db;
            db'.events == st.db.events && (ValidRows(st.db) ==> ValidRows(db'))
  {}

  /** Every entry is an old one, under its new name if it is the renamed one. */
  lemma RenameKeepsEntries(st: Store, from: string, to: string)
    requires Entries(st)
    ensures var (st', r) := RenameBucket(st, from, to);
            && Entries(st')
            && forall n :: n in st'.cache ==>
                 var m := if r.Ok? && n == to then from else n; m in st.cache && st'.cache[n] == st.cache[m].(id := n)
  {
    var (st', r) := RenameBucket(st, from, to);
    if r.Ok? {
      hide Renamed, HasName;
      forall b | b in st'.db.buckets ensures b.name in st'.cache && RowOf(st'.cache[b.name]) == b {
        RenamedOrigin(st.db.buckets, from, to, b);
      }
      forall n | n in st'.cache ensures st'.cache[n].id == n && RowOf(st'.cache[n]) in st'.db.buckets {
        RenamedImage(st.db.buckets, from, to, RowOf(st.cache[if n == to then from else n]));
      }
    }
  }

  lemma RenameKeepsBounded(st: Store, from: string, to: string)
    requires Bounded(st)
    ensures var st' := RenameBucket(st, from, to).0; Bounded(st') && (Agrees(st) ==> Agrees(st'))
  {
    hide RenameBucket, Valid, Entries, IsBound, IsExtent;
    RenameKeepsValid(st, from, to);
    RenameKeepsEntries(st, from, to);
  }

  lemma {:induction false} UpdateRowMembers(rows: seq<EventRow>, bid: int, id: int, e: Event)
    ensures var row := EventRow(id, bid, e.timestamp, e.End(), e.data);
            var rows' := UpdateRow(rows, bid, id, e);
            && (forall i :: 0 <= i < |rows| ==> rows'[i].id == rows[i].id && rows'[i].bucketrow == rows[i].bucketrow)
            && (forall r :: r in rows' ==> r in rows || r == row)
            && (forall r :: r in rows && !(r.bucketrow == bid && r.id == id) ==> r in rows')
            && (HasRow(rows, bid, id) ==> row in rows')
  {
    var rows' := UpdateRow(rows, bid, id, e);
    assert forall i :: 0 <= i < |rows| ==> rows'[i] in rows';
  }

  /** `e` continues every row that it would replace: same start, no earlier end. */
  ghost predicate Continues(events: seq<EventRow>, bid: int, id: int, e: Event) {
    forall r :: r in events && r.bucketrow == bid && r.id == id ==> r.start == e.timestamp && r.end <= e.End()
  }

  lemma ReplacedExtent(events: seq<EventRow>, c: Bucket, id: int, e: Event)
    requires IsExtent(events, c.bid, c.start, c.end) && HasRow(events, c.bid, id) && Continues(events, c.bid, id, e)
    ensures IsExtent(UpdateRow(events, c.bid, id, e), c.bid, Extend(c, e).start, Extend(c, e).end)
  {
    var events' := UpdateRow(events, c.bid, id, e);
    var row := EventRow(id, c.bid, e.timestamp, e.End(), e.data);
    UpdateRowMembers(events, c.bid, id, e);
    ExtentGrows(events, events', c, c.bid, row, e);
    var s :| s in events && s.bucketrow == c.bid && s.start == c.start.value;
    assert s in events' || row.start == s.start;
    var t :| t in events && t.bucketrow == c.bid && t.end == c.end.value;
    assert t in events' || row.end >= t.end;
  }

  lemma ReplaceKeepsValid(st: Store, name: string, id: int, e: Event)
    requires Valid(st.db) && Entries(st) && name in st.cache
    ensures var st' := ReplaceLastEvent(st, name, id, e).0; Valid(st'.db) && Entries(st')
  {
    UpdateRowMembers(st.db.events, st.cache[name].bid, id, e);
    assert forall i :: 0 <= i < |st.db.events| ==> st.db.events[i] in st.db.events;
    hide UpdateRow, HasRow;
  }

  lemma ReplaceKeepsBounded(st: Store, name: string, id: int, e: Event)
    requires Bounded(st) && name in st.cache
    ensures var st' := ReplaceLastEvent(st, name, id, e).0;
            Bounded(st') && (Agrees(st) && Continues(st.db.events, st.cache[name].bid, id, e) ==> Agrees(st'))
  {
    var c := st.cache[name];
    EntriesKeepBids(st);
    ReplaceKeepsValid(st, name, id, e);
    if HasRow(st.db.events, c.bid, id) {
      hide Valid, Entries, UpdateRow, Extend, HasRow, IsExtent, IsBound;
      var st' := ReplaceLastEvent(st, name, id, e).0;
      var row := EventRow(id, c.bid, e.timestamp, e.End(), e.data);
      UpdateRowMembers(st.db.events, c.bid, id, e);
      forall n | n in st'.cache
        ensures var d := st'.cache[n]; IsBound(st'.db.events, d.bid, d.start, d.end)
        ensures var d := st'.cache[n];
                Agrees(st) && Continues(st.db.events, c.bid, id, e) ==> IsExtent(st'.db.events, d.bid, d.start, d.end)
      {
        ExtendKeepsBid(c, e);
        ExtentGrows(st.db.events, st'.db.events, st.cache[n], c.bid, row, e);
        if Agrees(st) && Continues(st.db.events, c.bid, id, e) {
          if n == name {
            ReplacedExtent(st.db.events, c, id, e);
          } else {
            OtherExtent(st.db.events, c.bid, id, e, st.cache[n]);
          }
        }
      }
    }
  }

  lemma OtherExtent(events: seq<EventRow>, bid: int, id: int, e: Event, d: Bucket)
    requires d.bid != bid && IsExtent(events, d.bid, d.start, d.end)
    ensures IsExtent(UpdateRow(events, bid, id, e), d.bid, d.start, d.end)
  {
    UpdateRowMembers(events, bid, id, e);
    hide UpdateRow;
  }

  lemma {:induction false} DroppedRows(rows: seq<EventRow>, bid: int)
    ensures forall r :: r in DropRows(rows, bid) <==> r in rows && r.bucketrow != bid
    ensures (forall i, j :: 0 <= i < j < |rows| ==> rows[i].id != rows[j].id) ==>
            (forall i, j :: 0 <= i < j < |DropRows(rows, bid)| ==>
                DropRows(rows, bid)[i].id != DropRows(rows, bid)[j].id)
  {
    if rows != [] {
      DroppedRows(rows[1..], bid);
      assert rows == [rows[0]] + rows[1..];
      var w := DropRows(rows[1..], bid);
      if forall i, j :: 0 <= i < j < |rows| ==> rows[i].id != rows[j].id {
        forall i | 0 <= i < |w| ensures w[i].id != rows[0].id { assert w[i] in rows[1..]; }
      }
    }
  }

  lemma {:induction false} DroppedBuckets(bs: seq<BucketRow>, bid: int)
    ensures forall b :: b in DropBucket(bs, bid) <==> b in bs && b.bid != bid
  {
    if bs != [] {
      DroppedBuckets(bs[1..], bid);
      assert bs == [bs[0]] + bs[1..];
    }
  }

  ghost predicate DistinctBuckets(bs: seq<BucketRow>) {
    forall i, j :: 0 <= i < j < |bs| ==> bs[i].bid != bs[j].bid && bs[i].name != bs[j].name
  }

  lemma {:induction false} DropKeepsDistinct(bs: seq<BucketRow>, bid: int)
    requires DistinctBuckets(bs)
    ensures DistinctBuckets(DropBucket(bs, bid))
  {
    if bs != [] {
      DropKeepsDistinct(bs[1..], bid);
      DroppedBuckets(bs[1..], bid);
      var w := DropBucket(bs[1..], bid);
      forall i | 0 <= i < |w| ensures w[i].bid != bs[0].bid && w[i].name != bs[0].name {
        assert w[i] in bs[1..];
      }
    }
  }

  lemma DeleteBucketKeepsEntries(st: Store, name: string)
    requires Valid(st.db) && Entries(st) && name in st.cache
    ensures var st' := DeleteBucket(st, name).0; Valid(st'.db) && Entries(st')
  {
    var bid := st.cache[name].bid;
    var st' := DeleteBucket(st, name).0;
    assert ValidRows(st'.db) by {
      DroppedRows(st.db.events, bid);
      hide DropRows, Entries;
    }
    EntriesKeepBids(st);
    hide ValidRows, DropRows, DropBucket;
    DroppedBuckets(st.db.buckets, bid);
    DropKeepsDistinct(st.db.buckets, bid);
  }

  lemma DeleteBucketKeepsBounded(st: Store, name: string)
    requires Bounded(st)
    ensures Bounded(DeleteBucket(st, name).0)
  {
    if name in st.cache {
      DeleteBucketKeepsEntries(st, name);
      DroppedRows(st.db.events, st.cache[name].bid);
      hide Valid, Entries, DropRows, DropBucket;
    }
  }

  lemma {:induction false} DeleteRowMembers(rows: seq<EventRow>, bid: int, id: int)
    ensures forall r :: r in DeleteRow(rows, bid, id) <==> r in rows && !(r.bucketrow == bid && r.id == id)
    ensures DistinctRows(rows) ==> DistinctRows(DeleteRow(rows, bid, id))
  {
    if rows != [] {
      DeleteRowMembers(rows[1..], bid, id);
      assert rows == [rows[0]] + rows[1..];
      var w := DeleteRow(rows[1..], bid, id);
      if DistinctRows(rows) {
        forall i | 0 <= i < |w| ensures w[i].id != rows[0].id { assert w[i] in rows[1..]; }
      }
    }
  }

  ghost predicate DistinctRows(rows: seq<EventRow>) {
    forall i, j :: 0 <= i < j < |rows| ==> rows[i].id != rows[j].id
  }

  lemma {:induction false} DeleteRowsMembers(rows: seq<EventRow>, bid: int, ids: seq<int>)
    ensures forall r :: r in DeleteRows(rows, bid, ids) <==> r in rows && !(r.bucketrow == bid && r.id in ids)
    decreases |ids|
  {
    if ids != [] {
      DeleteRowMembers(rows, bid, ids[0]);
      DeleteRowsMembers(DeleteRow(rows, bid, ids[0]), bid, ids[1..]);
      assert ids == [ids[0]] + ids[1..];
    }
  }

  lemma {:induction false} DeleteEventsKeepsBounded(st: Store, name: string, ids: seq<int>)
    requires Bounded(st)
    ensures Bounded(DeleteEventsById(st, name, ids).0)
    decreases |ids|
  {
    if name in st.cache && ids != [] {
      var bid := st.cache[name].bid;
      DeleteRowMembers(st.db.events, bid, ids[0]);
      var st1 := st.(db := st.db.(events := DeleteRow(st.db.events, bid, ids[0])));
      assert Bounded(st1);
      DeleteEventsKeepsBounded(st1, name, ids[1..]);
    }
  }
}
