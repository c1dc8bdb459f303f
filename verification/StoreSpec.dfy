/** The event store as values: the two tables, the bucket cache kept beside
    them, and what each operation does to them. */
module StoreSpec {
  import opened Events
  import HeartbeatRule

  /** The largest time the store can hold, in nanoseconds. */
  const I64_MAX := 0x7fff_ffff_ffff_ffff

  datatype BucketInfo = BucketInfo(bucketType: string, client: string, hostname: string, created: int, data: Data)

  datatype BucketRow = BucketRow(bid: int, name: string, info: BucketInfo)

  datatype EventRow = EventRow(id: int, bucketrow: int, start: int, end: int, data: Data)

  /** A bucket as it is cached: its row, with the extent of its events. */
  datatype Bucket = Bucket(bid: int, id: string, info: BucketInfo, start: Option<int>, end: Option<int>)

  datatype Db = Db(buckets: seq<BucketRow>, events: seq<EventRow>, nextBucket: int, nextEvent: int)

  datatype Store = Store(db: Db, cache: map<string, Bucket>)

  datatype Error = NoSuchBucket(id: string) | BucketAlreadyExists(name: string) | InternalError

  datatype Result<+T> = Ok(value: T) | Err(error: Error)

  // ---- Buckets ----

  predicate HasName(buckets: seq<BucketRow>, name: string) {
    exists b :: b in buckets && b.name == name
  }

  /** INSERT INTO buckets: fails on a taken name. Events, if any, follow. */
  function CreateBucket(st: Store, name: string, info: BucketInfo, events: Option<seq<Event>>): (Store, Result<()>) {
    if HasName(st.db.buckets, name) then (st, Err(BucketAlreadyExists(name)))
    else
      var bid := st.db.nextBucket;
      var db := st.db.(buckets := st.db.buckets + [BucketRow(bid, name, info)], nextBucket := bid + 1);
      var st' := Store(db, st.cache[name := Bucket(bid, name, info, None, None)]);
      if events.Some? then (InsertEvents(st', name, events.value).0, Ok(())) else (st', Ok(()))
  }

  function DropRows(rows: seq<EventRow>, bid: int): seq<EventRow> {
    if rows == [] then []
    else (if rows[0].bucketrow == bid then [] else [rows[0]]) + DropRows(rows[1..], bid)
  }

  function DropBucket(buckets: seq<BucketRow>, bid: int): seq<BucketRow> {
    if buckets == [] then []
    else (if buckets[0].bid == bid then [] else [buckets[0]]) + DropBucket(buckets[1..], bid)
  }

  function DeleteBucket(st: Store, name: string): (Store, Result<()>) {
    if name !in st.cache then (st, Err(NoSuchBucket(name)))
    else
      var bid := st.cache[name].bid;
      var db := st.db.(events := DropRows(st.db.events, bid), buckets := DropBucket(st.db.buckets, bid));
      (Store(db, st.cache - {name}), Ok(()))
  }

  function Renamed(buckets: seq<BucketRow>, from: string, to: string): (r: seq<BucketRow>)
    ensures |r| == |buckets|
  {
    seq(|buckets|, i requires 0 <= i < |buckets| =>
      if buckets[i].name == from then buckets[i].(name := to) else buckets[i])
  }

  /** UPDATE ... WHERE name = from: names are unique, so it fails on a taken one
      that the cache does not know. */
  function RenameBucket(st: Store, from: string, to: string): (Store, Result<()>) {
    if from !in st.cache then (st, Err(NoSuchBucket(from)))
    else if to in st.cache then (st, Err(BucketAlreadyExists(to)))
    else if !HasName(st.db.buckets, from) then (st, Err(NoSuchBucket(from)))
    else if HasName(st.db.buckets, to) then (st, Err(InternalError))
    else
      var db := st.db.(buckets := Renamed(st.db.buckets, from, to));
      (Store(db, (st.cache - {from})[to := st.cache[from].(id := to)]), Ok(()))
  }

  // ---- Events ----

  function Without(rows: seq<EventRow>, id: int): seq<EventRow> {
    if rows == [] then []
    else (if rows[0].id == id then [] else [rows[0]]) + Without(rows[1..], id)
  }

  function RowId(db: Db, e: Event): int {
    if e.id.Some? then e.id.value else db.nextEvent
  }

  /** INSERT OR REPLACE: a row with the same id, in whatever bucket, goes. */
  function InsertRow(db: Db, bid: int, e: Event): Db {
    var id := RowId(db, e);
    db.(events := Without(db.events, id) + [EventRow(id, bid, e.timestamp, e.End(), e.data)],
        nextEvent := Max(db.nextEvent, id + 1))
  }

  /** update_endtime: the extent grows to hold `e`. */
  function Extend(bucket: Bucket, e: Event): Bucket {
    bucket.(start := if bucket.start.None? || bucket.start.value > e.timestamp then Some(e.timestamp) else bucket.start,
            end := if bucket.end.None? || bucket.end.value < e.End() then Some(e.End()) else bucket.end)
  }

  function InsertAll(db: Db, bucket: Bucket, es: seq<Event>): (Db, Bucket, seq<Event>)
    decreases |es|
  {
    if es == [] then (db, bucket, [])
    else
      var (db', bucket', rest) := InsertAll(InsertRow(db, bucket.bid, es[0]), Extend(bucket, es[0]), es[1..]);
      (db', bucket', [es[0].(id := Some(RowId(db, es[0])))] + rest)
  }

  function InsertEvents(st: Store, name: string, es: seq<Event>): (Store, Result<seq<Event>>) {
    if name !in st.cache then (st, Err(NoSuchBucket(name)))
    else
      var (db, bucket, inserted) := InsertAll(st.db, st.cache[name], es);
      (Store(db, st.cache[name := bucket]), Ok(inserted))
  }

  function DeleteRow(rows: seq<EventRow>, bid: int, id: int): seq<EventRow> {
    if rows == [] then []
    else (if rows[0].bucketrow == bid && rows[0].id == id then [] else [rows[0]]) + DeleteRow(rows[1..], bid, id)
  }

  function DeleteRows(rows: seq<EventRow>, bid: int, ids: seq<int>): seq<EventRow>
    decreases |ids|
  {
    if ids == [] then rows else DeleteRows(DeleteRow(rows, bid, ids[0]), bid, ids[1..])
  }

  function DeleteEventsById(st: Store, name: string, ids: seq<int>): (Store, Result<()>) {
    if name !in st.cache then (st, Err(NoSuchBucket(name)))
    else (st.(db := st.db.(events := DeleteRows(st.db.events, st.cache[name].bid, ids))), Ok(()))
  }

  predicate HasRow(rows: seq<EventRow>, bid: int, id: int) {
    exists r :: r in rows && r.bucketrow == bid && r.id == id
  }

  function UpdateRow(rows: seq<EventRow>, bid: int, id: int, e: Event): (r: seq<EventRow>)
    ensures |r| == |rows|
  {
    seq(|rows|, i requires 0 <= i < |rows| =>
      if rows[i].bucketrow == bid && rows[i].id == id then EventRow(id, bid, e.timestamp, e.End(), e.data) else rows[i])
  }

  /** UPDATE by id; matching no row is an error. */
  function ReplaceLastEvent(st: Store, name: string, id: int, e: Event): (Store, Result<()>) {
    if name !in st.cache then (st, Err(NoSuchBucket(name)))
    else
      var bucket := st.cache[name];
      if !HasRow(st.db.events, bucket.bid, id) then (st, Err(InternalError))
      else
        var db := st.db.(events := UpdateRow(st.db.events, bucket.bid, id, e));
        (Store(db, st.cache[name := Extend(bucket, e)]), Ok(()))
  }

  // ---- Queries ----

  function InRange(rows: seq<EventRow>, bid: int, from: int, to: int): seq<EventRow> {
    if rows == [] then []
    else (if rows[0].bucketrow == bid && rows[0].end >= from && rows[0].start <= to then [rows[0]] else [])
         + InRange(rows[1..], bid, from, to)
  }

  function InsertDesc(r: EventRow, rows: seq<EventRow>): seq<EventRow> {
    if rows == [] || r.start >= rows[0].start then [r] + rows else [rows[0]] + InsertDesc(r, rows[1..])
  }

  /** ORDER BY starttime DESC; rows with equal starts stay in table order. */
  function LatestFirst(rows: seq<EventRow>): seq<EventRow> {
    if rows == [] then [] else InsertDesc(rows[0], LatestFirst(rows[1..]))
  }

  function ToEvent(r: EventRow, from: int, to: int, clip: bool): Event {
    var start := if clip then Max(r.start, from) else r.start;
    var end := if clip then Min(r.end, to) else r.end;
    Event(Some(r.id), start, end - start, r.data)
  }

  function ToEvents(rows: seq<EventRow>, from: int, to: int, clip: bool): (es: seq<Event>)
    ensures |es| == |rows|
  {
    seq(|rows|, i requires 0 <= i < |rows| => ToEvent(rows[i], from, to, clip))
  }

  function Limited<T>(s: seq<T>, limit: Option<nat>): seq<T> {
    if limit.Some? && limit.value < |s| then s[..limit.value] else s
  }

  function GetEvents(st: Store, name: string, from: Option<int>, to: Option<int>, limit: Option<nat>, clip: bool)
    : Result<seq<Event>>
  {
    if name !in st.cache then Err(NoSuchBucket(name))
    else
      var lo := if from.Some? then from.value else 0;
      var hi := if to.Some? then to.value else I64_MAX;
      if lo > hi then Ok([])
      else Ok(ToEvents(Limited(LatestFirst(InRange(st.db.events, st.cache[name].bid, lo, hi)), limit), lo, hi, clip))
  }

  // ---- Heartbeats ----

  /** The newest event of a bucket, read from the table. */
  function Reread(st: Store, name: string): Option<Event> {
    var r := GetEvents(st, name, None, None, Some(1), true);
    if r.Ok? && r.value != [] then Some(r.value[|r.value| - 1]) else None
  }

  type LastHeartbeats = map<string, Option<Event>>

  /** The remembered newest event, or else the one in the table. */
  function Previous(st: Store, last: LastHeartbeats, name: string): Option<Event> {
    if name in last && last[name].Some? then last[name] else Reread(st, name)
  }

  /** The outcome of a heartbeat that found `prev`: merged into it, or appended. */
  function BeatAfter(st: Store, last: LastHeartbeats, name: string, prev: Event, heartbeat: Event, pulsetime: int)
    : (Store, LastHeartbeats, Result<Event>)
  {
    var merged := HeartbeatRule.Merge(prev, heartbeat, pulsetime);
    if merged.None? then
      var (st', r) := InsertEvents(st, name, [heartbeat]);
      if r.Err? then (st', last, Err(r.error))
      else (st', last[name := Some(r.value[|r.value| - 1])], Ok(r.value[|r.value| - 1]))
    else if prev.id.None? then (st, last, Err(InternalError))
    else
      var (st', r) := ReplaceLastEvent(st, name, prev.id.value, merged.value);
      if r.Err? then (st', last, Err(r.error))
      else
        var event := merged.value.(id := prev.id);
        (st', last[name := Some(event)], Ok(event))
  }

  function HeartbeatStep(st: Store, last: LastHeartbeats, name: string, heartbeat: Event, pulsetime: int)
    : (Store, LastHeartbeats, Result<Event>)
  {
    if name !in st.cache then (st, last, Err(NoSuchBucket(name)))
    else
      var prev := Previous(st, last, name);
      if prev.Some? then BeatAfter(st, last - {name}, name, prev.value, heartbeat, pulsetime)
      else
        var (st', r) := InsertEvents(st, name, [heartbeat]);
        (st', last - {name}, Ok(r.value[|r.value| - 1]))
  }

  /** Appending one event, spelled out. */
  lemma InsertOne(st: Store, name: string, e: Event)
    requires name in st.cache
    ensures var c := st.cache[name];
            InsertEvents(st, name, [e]) ==
              (Store(InsertRow(st.db, c.bid, e), st.cache[name := Extend(c, e)]), Ok([e.(id := Some(RowId(st.db, e)))]))
  {
    var c := st.cache[name];
    assert [e][1..] == [];
    var e' := e.(id := Some(RowId(st.db, e)));
    assert InsertAll(InsertRow(st.db, c.bid, e), Extend(c, e), []) == (InsertRow(st.db, c.bid, e), Extend(c, e), []);
    assert [e'] + [] == [e'];
    assert InsertAll(st.db, c, [e]) == (InsertRow(st.db, c.bid, e), Extend(c, e), [e']);
  }

  // ---- The cached extent, recomputed from the table ----

  function MinStart(rows: seq<EventRow>, bid: int): Option<int> {
    if rows == [] then None
    else
      var m := MinStart(rows[1..], bid);
      if rows[0].bucketrow == bid && (m.None? || rows[0].start < m.value) then Some(rows[0].start) else m
  }

  function MaxEnd(rows: seq<EventRow>, bid: int): Option<int> {
    if rows == [] then None
    else
      var m := MaxEnd(rows[1..], bid);
      if rows[0].bucketrow == bid && (m.None? || rows[0].end > m.value) then Some(rows[0].end) else m
  }

  function Stored(b: BucketRow, events: seq<EventRow>): Bucket {
    Bucket(b.bid, b.name, b.info, MinStart(events, b.bid), MaxEnd(events, b.bid))
  }

  /** The query behind get_stored_buckets, as a map by name. */
  function StoredBuckets(buckets: seq<BucketRow>, events: seq<EventRow>): map<string, Bucket> {
    if buckets == [] then map[]
    else
      var n := |buckets| - 1;
      StoredBuckets(buckets[..n], events)[buckets[n].name := Stored(buckets[n], events)]
  }
}
