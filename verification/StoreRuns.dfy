/** Runs of store commands, with the two caches the worker keeps: the bucket
    cache and the last heartbeat of each bucket. */
module StoreRuns {
  import opened Events
  import opened StoreSpec
  import opened BucketCache
  import HeartbeatRule

  datatype Op =
    | Create(name: string, info: BucketInfo, events: Option<seq<Event>>)
    | Insert(bucket: string, es: seq<Event>)
    | Beat(beaten: string, heartbeat: Event, pulsetime: int)
    | Rename(from: string, to: string)
    | Drop(dropped: string)
    | DropEvents(trimmed: string, ids: seq<int>)

  datatype Sys = Sys(st: Store, last: LastHeartbeats)

  datatype Response = Done(done: Result<()>) | Inserted(inserted: Result<seq<Event>>) | Beaten(event: Result<Event>)

  function Step(s: Sys, op: Op): (Sys, Response) {
    match op
    case Create(name, info, events) =>
      var (st, r) := CreateBucket(s.st, name, info, events);
      (s.(st := st), Done(r))
    case Insert(name, es) =>
      if es == [] then (s, Inserted(Ok([])))
      else
        var (st, r) := InsertEvents(s.st, name, es);
        (Sys(st, if r.Ok? then s.last[name := None] else s.last), Inserted(r))
    case Beat(name, heartbeat, pulsetime) =>
      var (st, last, r) := HeartbeatStep(s.st, s.last, name, heartbeat, pulsetime);
      (Sys(st, last), Beaten(r))
    case Rename(from, to) =>
      var (st, r) := RenameBucket(s.st, from, to);
      (s.(st := st), Done(r))
    case Drop(name) =>
      var (st, r) := DeleteBucket(s.st, name);
      (s.(st := st), Done(r))
    case DropEvents(name, ids) =>
      var (st, r) := DeleteEventsById(s.st, name, ids);
      (s.(st := st), Done(r))
  }

  function Run(s: Sys, ops: seq<Op>): (Sys, seq<Response>)
    decreases |ops|
  {
    if ops == [] then (s, [])
    else
      var (s1, r) := Step(s, ops[0]);
      var (s2, rs) := Run(s1, ops[1..]);
      (s2, [r] + rs)
  }

  // ---- Cached extents hold every event, in every run ----

  lemma BeatKeepsBounded(s: Sys, name: string, heartbeat: Event, pulsetime: int)
    requires Bounded(s.st)
    ensures Bounded(HeartbeatStep(s.st, s.last, name, heartbeat, pulsetime).0)
  {
    hide Bounded, InsertEvents, ReplaceLastEvent, Previous, HeartbeatRule.Merge;
    if name in s.st.cache {
      InsertAllKeepsBounded(s.st, name, [heartbeat]);
      var prev := Previous(s.st, s.last, name);
      if prev.Some? && prev.value.id.Some? && HeartbeatRule.Merge(prev.value, heartbeat, pulsetime).Some? {
        ReplaceKeepsBounded(s.st, name, prev.value.id.value,
            HeartbeatRule.Merge(prev.value, heartbeat, pulsetime).value);
      }
    }
  }

  lemma StepKeepsBounded(s: Sys, op: Op)
    requires Bounded(s.st)
    ensures Bounded(Step(s, op).0.st)
  {
    hide Bounded, CreateBucket, InsertEvents, HeartbeatStep, RenameBucket, DeleteBucket, DeleteEventsById;
    match op
    case Create(name, info, events) =>
      if events.Some? {
        CreateWithEventsKeepsBounded(s.st, name, info, events.value);
      } else {
        CreateKeepsBounded(s.st, name, info);
      }
    case Insert(name, es) =>
      if name in s.st.cache { InsertAllKeepsBounded(s.st, name, es); } else { UnknownBucketInsert(s.st, name, es); }
    case Beat(name, heartbeat, pulsetime) => BeatKeepsBounded(s, name, heartbeat, pulsetime);
    case Rename(from, to) => RenameKeepsBounded(s.st, from, to);
    case Drop(name) => DeleteBucketKeepsBounded(s.st, name);
    case DropEvents(name, ids) => DeleteEventsKeepsBounded(s.st, name, ids);
  }

  lemma UnknownBucketInsert(st: Store, name: string, es: seq<Event>)
    ensures InsertEvents(st, name, es).1.Ok? <==> name in st.cache
    ensures name !in st.cache ==> InsertEvents(st, name, es).0 == st
  {}

  /** Whatever commands run, deletions and id-replacing inserts included: the
      cached start and end of a bucket are outer bounds of its events. */
  lemma {:induction false} RunKeepsBounded(s: Sys, ops: seq<Op>)
    requires Bounded(s.st)
    ensures Bounded(Run(s, ops).0.st)
    decreases |ops|
  {
    if ops != [] {
      StepKeepsBounded(s, ops[0]);
      RunKeepsBounded(Step(s, ops[0]).0, ops[1..]);
    }
  }

  // ---- Cached extents are exact, in runs that only add ----

  /** A time that a query without bounds neither hides nor clips. */
  predicate InEra(start: int, end: int) { 0 <= start <= I64_MAX && 0 <= end <= I64_MAX }

  ghost predicate AllInEra(es: seq<Event>) {
    forall e :: e in es ==> InEra(e.timestamp, e.End())
  }

  ghost predicate RowsInEra(db: Db) {
    forall r :: r in db.events ==> InEra(r.start, r.end)
  }

  ghost predicate HasId(events: seq<EventRow>, id: int) {
    exists r :: r in events && r.id == id
  }

  /** A remembered heartbeat that names a row of `bid` says what the row says. */
  ghost predicate Matches(events: seq<EventRow>, bid: int, e: Event) {
    e.id.Some? && forall r :: r in events && r.bucketrow == bid && r.id == e.id.value ==>
        r.start == e.timestamp && r.end == e.End()
  }

  ghost predicate Backed(st: Store, last: LastHeartbeats) {
    && (forall name :: name in last && last[name].Some? ==>
       last[name].value.id.Some? && HasId(st.db.events, last[name].value.id.value))
    && (forall name :: name in last && last[name].Some? && name in st.cache ==>
       Matches(st.db.events, st.cache[name].bid, last[name].value))
  }

  ghost predicate Exact(s: Sys) {
    Agrees(s.st) && RowsInEra(s.st.db) && Backed(s.st, s.last)
  }

  /** What is remembered under `to` says what the rows of bucket `from` say. */
  ghost predicate RememberedMatches(s: Sys, from: string, to: string)
    requires from in s.st.cache
  {
    to in s.last && s.last[to].Some? ==> Matches(s.st.db.events, s.st.cache[from].bid, s.last[to].value)
  }

  /** The command only adds: inserted ids are new and times representable, and no
      bucket takes a name under which an event is remembered that says something
      else than the bucket's row of that id. */
  ghost predicate Adds(s: Sys, op: Op) {
    match op
    case Create(name, info, events) =>
      events.Some? ==>
        AllInEra(events.value) &&
        AllFresh(CreateBucket(s.st, name, info, None).0.db, s.st.db.nextBucket, events.value)
    case Insert(name, es) => name in s.st.cache ==> AllInEra(es) && AllFresh(s.st.db, s.st.cache[name].bid, es)
    case Beat(name, heartbeat, pulsetime) => InEra(heartbeat.timestamp, heartbeat.End()) && Fresh(s.st.db, heartbeat)
    case Rename(from, to) =>
      RenameBucket(s.st, from, to).1.Ok? ==> RememberedMatches(s, from, to)
    case Drop(_) => false
    case DropEvents(_, _) => false
  }

  /** New rows are rows of bucket `bid` with ids that no row had. */
  ghost predicate Grown(events: seq<EventRow>, events': seq<EventRow>, bid: int) {
    && (forall r :: r in events ==> r in events')
    && (forall r :: r in events' && r !in events ==>
       r.bucketrow == bid && !HasId(events, r.id) && InEra(r.start, r.end))
  }

  lemma {:induction false} InsertAllGrows(db: Db, bucket: Bucket, es: seq<Event>)
    requires Valid(db) && bucket.bid < db.nextBucket && AllFresh(db, bucket.bid, es) && AllInEra(es)
    ensures Grown(db.events, InsertAll(db, bucket, es).0.events, bucket.bid)
    decreases |es|
  {
    if es != [] {
      var e := es[0];
      var db1 := InsertRow(db, bucket.bid, e);
      InsertRowFacts(db, bucket.bid, e);
      FreshKeepsRows(db, bucket.bid, e);
      assert e in es;
      hide InsertRow, Valid;
      InsertAllGrows(db1, Extend(bucket, e), es[1..]);
      assert RowId(db, e) == NewRow(db, bucket.bid, e).id;
      assert !HasId(db.events, RowId(db, e)) by { FreshIdIsNew(db, e); }
    }
  }

  lemma FreshIdIsNew(db: Db, e: Event)
    requires Valid(db) && Fresh(db, e)
    ensures !HasId(db.events, RowId(db, e))
  {}

  lemma GrownKeepsBacked(st: Store, st': Store, last: LastHeartbeats, bid: int)
    requires Backed(st, last) && RowsInEra(st.db) && Grown(st.db.events, st'.db.events, bid)
    requires forall n :: n in last && last[n].Some? && n in st'.cache ==>
               || (n in st.cache && st'.cache[n].bid == st.cache[n].bid)
               || forall r :: r in st.db.events ==> r.bucketrow != st'.cache[n].bid
    ensures Backed(st', last) && RowsInEra(st'.db)
  {
    forall n | n in last && last[n].Some? ensures HasId(st'.db.events, last[n].value.id.value) {
      var r :| r in st.db.events && r.id == last[n].value.id.value;
      assert r in st'.db.events;
    }
  }

  // ---- The newest row of a bucket ----

  function InBucket(rows: seq<EventRow>, bid: int): seq<EventRow> {
    if rows == [] then []
    else (if rows[0].bucketrow == bid then [rows[0]] else []) + InBucket(rows[1..], bid)
  }

  /** The first of the rows with the greatest start. */
  function Latest(rows: seq<EventRow>): EventRow
    requires rows != []
  {
    if |rows| == 1 then rows[0]
    else
      var r := Latest(rows[1..]);
      if rows[0].start >= r.start then rows[0] else r
  }

  function EventOf(r: EventRow): Event { Event(Some(r.id), r.start, r.end - r.start, r.data) }

  lemma {:induction false} InRangeIsInBucket(rows: seq<EventRow>, bid: int)
    requires forall r :: r in rows ==> InEra(r.start, r.end)
    ensures InRange(rows, bid, 0, I64_MAX) == InBucket(rows, bid)
    ensures forall r :: r in InBucket(rows, bid) <==> r in rows && r.bucketrow == bid
  {
    if rows != [] {
      assert rows == [rows[0]] + rows[1..];
      InRangeIsInBucket(rows[1..], bid);
    }
  }

  lemma {:induction false} LatestIsFirst(rows: seq<EventRow>)
    requires rows != []
    ensures LatestFirst(rows) != [] && LatestFirst(rows)[0] == Latest(rows) && Latest(rows) in rows
    ensures forall r :: r in rows ==> r.start <= Latest(rows).start
  {
    if |rows| > 1 {
      LatestIsFirst(rows[1..]);
      assert rows == [rows[0]] + rows[1..];
    } else {
      assert LatestFirst(rows[1..]) == [];
    }
  }

  lemma FirstOfLatest(rows: seq<EventRow>)
    ensures Limited(LatestFirst(rows), Some(1)) == if rows == [] then [] else [Latest(rows)]
  {
    if rows != [] { LatestIsFirst(rows); }
  }

  /** Re-reading gives the newest row of the bucket, as an event. */
  lemma RereadIsLatest(st: Store, name: string)
    requires name in st.cache && RowsInEra(st.db)
    ensures var rows := InBucket(st.db.events, st.cache[name].bid);
            Reread(st, name) == if rows == [] then None else Some(EventOf(Latest(rows)))
  {
    hide LatestFirst, Latest, InBucket, InRange, Limited;
    var rows := InBucket(st.db.events, st.cache[name].bid);
    InRangeIsInBucket(st.db.events, st.cache[name].bid);
    FirstOfLatest(rows);
    if rows != [] { LatestIsFirst(rows); }
  }

  // ---- One command keeps the cache exact ----

  lemma CreateEmptyKeepsExact(s: Sys, name: string, info: BucketInfo)
    requires Exact(s)
    ensures Exact(s.(st := CreateBucket(s.st, name, info, None).0))
  {
    EntriesKeepBids(s.st);
    CreateKeepsBounded(s.st, name, info);
    hide Agrees, Entries, IsExtent, IsBound;
    var st1 := CreateBucket(s.st, name, info, None).0;
    GrownKeepsBacked(s.st, st1, s.last, s.st.db.nextBucket);
  }

  lemma CreateKeepsExact(s: Sys, name: string, info: BucketInfo, events: Option<seq<Event>>)
    requires Exact(s) && Adds(s, Create(name, info, events))
    ensures Exact(Step(s, Create(name, info, events)).0)
  {
    hide Exact, InsertEvents, AllFresh;
    CreateEmptyKeepsExact(s, name, info);
    if events.Some? && !HasName(s.st.db.buckets, name) {
      var st1 := CreateBucket(s.st, name, info, None).0;
      hide HasName;
      InsertAllKeepsExact(s.(st := st1), name, events.value);
    }
  }

  lemma InsertAllKeepsExact(s: Sys, name: string, es: seq<Event>)
    requires Exact(s) && name in s.st.cache && AllInEra(es) && AllFresh(s.st.db, s.st.cache[name].bid, es)
    ensures Exact(s.(st := InsertEvents(s.st, name, es).0))
  {
    EntriesKeepBids(s.st);
    var bid := s.st.cache[name].bid;
    InsertAllKeepsBounded(s.st, name, es);
    InsertAllGrows(s.st.db, s.st.cache[name], es);
    InsertAllKeepsBid(s.st.db, s.st.cache[name], es);
    hide Agrees, Matches, HasId, Backed, InsertAll, Grown, AllFresh;
    GrownKeepsBacked(s.st, InsertEvents(s.st, name, es).0, s.last, bid);
  }

  lemma InsertKeepsExact(s: Sys, name: string, es: seq<Event>)
    requires Exact(s) && Adds(s, Insert(name, es))
    ensures Exact(Step(s, Insert(name, es)).0)
  {
    hide Agrees, Matches, HasId, InsertEvents, RowsInEra, AllInEra, AllFresh;
    UnknownBucketInsert(s.st, name, es);
    if name in s.st.cache && es != [] {
      InsertAllKeepsExact(s, name, es);
    }
  }

  lemma {:induction false} InsertAllKeepsBid(db: Db, bucket: Bucket, es: seq<Event>)
    ensures InsertAll(db, bucket, es).1.bid == bucket.bid
    decreases |es|
  {
    if es != [] { InsertAllKeepsBid(InsertRow(db, bucket.bid, es[0]), Extend(bucket, es[0]), es[1..]); }
  }

  /** A rename that succeeds keeps the cached extents exact, and what is remembered
      true, if and only if what is remembered under the new name is true of the bucket. */
  lemma RenamedExactIff(s: Sys, from: string, to: string)
    requires Exact(s) && RenameBucket(s.st, from, to).1.Ok?
    ensures Exact(Step(s, Rename(from, to)).0) <==> RememberedMatches(s, from, to)
  {
    hide RenameBucket, Agrees, Backed, Matches, HasId, RememberedMatches;
    RenamedBackedIff(s, from, to);
    AgreesIsBounded(s.st);
    RenameKeepsBounded(s.st, from, to);
  }

  lemma RenamedBackedIff(s: Sys, from: string, to: string)
    requires Backed(s.st, s.last) && RenameBucket(s.st, from, to).1.Ok?
    ensures var st' := RenameBucket(s.st, from, to).0;
            st'.db.events == s.st.db.events && (Backed(st', s.last) <==> RememberedMatches(s, from, to))
  {
    hide Matches, HasId, HasName;
    var st' := RenameBucket(s.st, from, to).0;
    assert st'.cache == (s.st.cache - {from})[to := s.st.cache[from].(id := to)];
    if Backed(st', s.last) && to in s.last && s.last[to].Some? {
      assert Matches(st'.db.events, st'.cache[to].bid, s.last[to].value);
    }
  }

  lemma RenameKeepsExact(s: Sys, from: string, to: string)
    requires Exact(s) && Adds(s, Rename(from, to))
    ensures Exact(Step(s, Rename(from, to)).0)
  {
    hide Exact, Matches;
    if RenameBucket(s.st, from, to).1.Ok? { RenamedExactIff(s, from, to); }
  }

  lemma BackedWithout(st: Store, last: LastHeartbeats, name: string)
    requires Backed(st, last)
    ensures Backed(st, last - {name})
  {}

  lemma BackedWith(st: Store, last: LastHeartbeats, name: string, e: Event)
    requires Backed(st, last) && e.id.Some? && HasId(st.db.events, e.id.value)
    requires name in st.cache ==> Matches(st.db.events, st.cache[name].bid, e)
    ensures Backed(st, last[name := Some(e)])
  {
    hide HasId, Matches;
  }

  lemma LatestMatches(st: Store, name: string)
    requires Valid(st.db) && RowsInEra(st.db) && name in st.cache && Reread(st, name).Some?
    ensures var e := Reread(st, name).value;
            e.id.Some? && HasId(st.db.events, e.id.value) && Matches(st.db.events, st.cache[name].bid, e)
  {
    var bid := st.cache[name].bid;
    var rows := InBucket(st.db.events, bid);
    RereadIsLatest(st, name);
    LatestIsFirst(rows);
    InRangeIsInBucket(st.db.events, bid);
    hide Latest, LatestFirst, InBucket, InRange, Reread;
    var r := Latest(rows);
    assert forall q :: q in st.db.events && q.id == r.id ==> q == r;
  }

  /** The previous heartbeat, remembered or re-read, says what its row says. */
  lemma PreviousIsBacked(s: Sys, name: string)
    requires Exact(s) && name in s.st.cache
    ensures var prev := Previous(s.st, s.last, name);
            prev.Some? ==> prev.value.id.Some? && HasId(s.st.db.events, prev.value.id.value)
                           && Matches(s.st.db.events, s.st.cache[name].bid, prev.value)
  {
    hide Reread, HasId, Matches;
    if !(name in s.last && s.last[name].Some?) && Reread(s.st, name).Some? {
      LatestMatches(s.st, name);
    }
  }

  lemma UpdatedIds(events: seq<EventRow>, bid: int, id: int, e: Event, x: int)
    requires HasId(events, x)
    ensures HasId(UpdateRow(events, bid, id, e), x)
  {
    var events' := UpdateRow(events, bid, id, e);
    var r :| r in events && r.id == x;
    var i :| 0 <= i < |events| && events[i] == r;
    assert events'[i] in events';
  }

  lemma UpdatedMatches(events: seq<EventRow>, bid: int, id: int, e: Event, bid': int, f: Event)
    requires Matches(events, bid', f) && bid' != bid
    ensures Matches(UpdateRow(events, bid, id, e), bid', f)
  {
    UpdateRowMembers(events, bid, id, e);
    hide UpdateRow;
  }

  lemma UpdatedSelf(events: seq<EventRow>, bid: int, id: int, e: Event)
    requires HasRow(events, bid, id)
    ensures var events' := UpdateRow(events, bid, id, e);
            HasId(events', id) && Matches(events', bid, e.(id := Some(id)))
  {
    var r :| r in events && r.bucketrow == bid && r.id == id;
    UpdatedIds(events, bid, id, e, id);
  }

  lemma ReplaceKeepsExact(s: Sys, name: string, id: int, e: Event)
    requires Exact(s) && name in s.st.cache && HasRow(s.st.db.events, s.st.cache[name].bid, id)
    requires Continues(s.st.db.events, s.st.cache[name].bid, id, e) && InEra(e.timestamp, e.End())
    ensures var st' := ReplaceLastEvent(s.st, name, id, e).0;
            Exact(Sys(st', (s.last - {name})[name := Some(e.(id := Some(id)))]))
  {
    hide Continues, Extend, UpdateRow, HasRow, HasId, Matches, IsExtent, IsBound;
    var bid := s.st.cache[name].bid;
    var st' := ReplaceLastEvent(s.st, name, id, e).0;
    AgreesIsBounded(s.st);
    ReplaceKeepsBounded(s.st, name, id, e);
    UpdateRowMembers(s.st.db.events, bid, id, e);
    ReplaceKeepsBacked(s.st, s.last - {name}, name, id, e);
  }

  lemma ReplaceKeepsBacked(st: Store, last: LastHeartbeats, name: string, id: int, e: Event)
    requires Backed(st, last) && Valid(st.db) && Entries(st) && name !in last
    requires name in st.cache && HasRow(st.db.events, st.cache[name].bid, id)
    ensures Backed(ReplaceLastEvent(st, name, id, e).0, last[name := Some(e.(id := Some(id)))])
  {
    hide Extend, UpdateRow, HasRow, HasId, Matches;
    var bid := st.cache[name].bid;
    var st' := ReplaceLastEvent(st, name, id, e).0;
    EntriesKeepBids(st);
    ExtendKeepsBid(st.cache[name], e);
    UpdatedSelf(st.db.events, bid, id, e);
    forall n | n in last && last[n].Some?
      ensures HasId(st'.db.events, last[n].value.id.value)
      ensures n in st'.cache ==> Matches(st'.db.events, st'.cache[n].bid, last[n].value)
    {
      UpdatedIds(st.db.events, bid, id, e, last[n].value.id.value);
      if n in st.cache { UpdatedMatches(st.db.events, bid, id, e, st.cache[n].bid, last[n].value); }
    }
  }

  lemma NewRowMatches(db: Db, bid: int, e: Event)
    requires Valid(db) && bid < db.nextBucket && Fresh(db, e)
    ensures var db' := InsertRow(db, bid, e);
            var e' := e.(id := Some(RowId(db, e)));
            HasId(db'.events, e'.id.value) && Matches(db'.events, bid, e')
  {
    FreshKeepsRows(db, bid, e);
    FreshIdIsNew(db, e);
    hide InsertRow;
    assert NewRow(db, bid, e) in InsertRow(db, bid, e).events;
  }

  lemma AppendBeatKeepsExact(s: Sys, name: string, heartbeat: Event)
    requires Exact(s) && name in s.st.cache && InEra(heartbeat.timestamp, heartbeat.End()) && Fresh(s.st.db, heartbeat)
    ensures var (st', r) := InsertEvents(s.st, name, [heartbeat]);
            && r.Ok? && |r.value| == 1 && Exact(Sys(st', s.last - {name}))
            && Exact(Sys(st', (s.last - {name})[name := Some(r.value[0])]))
  {
    var c := s.st.cache[name];
    EntriesKeepBids(s.st);
    assert AllFresh(s.st.db, c.bid, [heartbeat]);
    hide Agrees, InsertEvents, Matches, HasId, Valid, Fresh, AllFresh, InsertRow;
    InsertAllKeepsExact(s, name, [heartbeat]);
    NewRowMatches(s.st.db, c.bid, heartbeat);
    InsertOne(s.st, name, heartbeat);
    ExtendKeepsBid(c, heartbeat);
    var (st', r) := InsertEvents(s.st, name, [heartbeat]);
    BackedWithout(st', s.last, name);
    BackedWith(st', s.last - {name}, name, r.value[0]);
  }

  lemma BeatKeepsExact(s: Sys, name: string, heartbeat: Event, pulsetime: int)
    requires Exact(s) && Adds(s, Beat(name, heartbeat, pulsetime))
    ensures Exact(Step(s, Beat(name, heartbeat, pulsetime)).0)
  {
    if name in s.st.cache {
      var prev := Previous(s.st, s.last, name);
      PreviousIsBacked(s, name);
      assert Exact(s.(last := s.last - {name})) by { BackedWithout(s.st, s.last, name); }
      AppendBeatKeepsExact(s, name, heartbeat);
      hide Previous, Exact, InsertEvents;
      if prev.Some? && HeartbeatRule.Merge(prev.value, heartbeat, pulsetime).Some? {
        MergedBeatKeepsExact(s, name, prev.value, heartbeat, pulsetime);
      }
    }
  }

  lemma MergedBeatKeepsExact(s: Sys, name: string, prev: Event, heartbeat: Event, pulsetime: int)
    requires Exact(s) && name in s.st.cache && InEra(heartbeat.timestamp, heartbeat.End())
    requires HeartbeatRule.Merge(prev, heartbeat, pulsetime).Some?
    requires prev.id.Some? && Matches(s.st.db.events, s.st.cache[name].bid, prev)
    ensures var (st', last', r) := BeatAfter(s.st, s.last - {name}, name, prev, heartbeat, pulsetime);
            Exact(Sys(st', last'))
  {
    var m := HeartbeatRule.Merge(prev, heartbeat, pulsetime).value;
    HeartbeatRule.MergeFacts(prev, heartbeat, pulsetime);
    hide HeartbeatRule.Merge, Agrees, HasId;
    BackedWithout(s.st, s.last, name);
    if HasRow(s.st.db.events, s.st.cache[name].bid, prev.id.value) {
      var r :| r in s.st.db.events && r.bucketrow == s.st.cache[name].bid && r.id == prev.id.value;
      assert InEra(m.timestamp, m.End());
      assert Continues(s.st.db.events, s.st.cache[name].bid, prev.id.value, m);
      hide Backed, Matches, Continues;
      ReplaceKeepsExact(s, name, prev.id.value, m);
    }
  }

  lemma StepKeepsExact(s: Sys, op: Op)
    requires Exact(s) && Adds(s, op)
    ensures Exact(Step(s, op).0)
  {
    match op
    case Create(name, info, events) => CreateKeepsExact(s, name, info, events);
    case Insert(name, es) => InsertKeepsExact(s, name, es);
    case Beat(name, heartbeat, pulsetime) => BeatKeepsExact(s, name, heartbeat, pulsetime);
    case Rename(from, to) => RenameKeepsExact(s, from, to);
  }

  ghost predicate AllAdd(s: Sys, ops: seq<Op>)
    decreases |ops|
  {
    ops == [] || (Adds(s, ops[0]) && AllAdd(Step(s, ops[0]).0, ops[1..]))
  }

  /** In every run that only adds, the bucket cache equals what
      get_stored_buckets would recompute from the tables. */
  lemma {:induction false} RunKeepsExact(s: Sys, ops: seq<Op>)
    requires Exact(s) && AllAdd(s, ops)
    ensures var st := Run(s, ops).0.st; Exact(Run(s, ops).0) && st.cache == StoredBuckets(st.db.buckets, st.db.events)
    decreases |ops|
  {
    if ops == [] {
      AgreesIff(s.st);
    } else {
      StepKeepsExact(s, ops[0]);
      RunKeepsExact(Step(s, ops[0]).0, ops[1..]);
    }
  }
}
