/** The remembered last heartbeat against re-reading the newest row each time. */
module HeartbeatCache {
  import opened Events
  import opened StoreSpec
  import opened BucketCache
  import opened StoreRuns
  import opened NewestRows
  import HeartbeatRule

  /** The same command without any remembered heartbeat. */
  function UncachedStep(st: Store, op: Op): (Store, Response) {
    var (s, r) := Step(Sys(st, map[]), op);
    (s.st, r)
  }

  function UncachedRun(st: Store, ops: seq<Op>): (Store, seq<Response>)
    decreases |ops|
  {
    if ops == [] then (st, [])
    else
      var (st1, r) := UncachedStep(st, ops[0]);
      var (st2, rs) := UncachedRun(st1, ops[1..]);
      (st2, [r] + rs)
  }

  /** What is remembered for a bucket is what re-reading would give. */
  ghost predicate Coherent(s: Sys) {
    forall name :: name in s.last && s.last[name].Some? && name in s.st.cache ==> Reread(s.st, name) == s.last[name]
  }

  /** From a coherent state the remembered heartbeat makes no difference. */
  lemma CoherentStepAgrees(s: Sys, op: Op)
    requires Coherent(s)
    ensures (Step(s, op).0.st, Step(s, op).1) == UncachedStep(s.st, op)
  {
    if op.Beat? && op.beaten in s.st.cache {
      hide Reread, InsertEvents, ReplaceLastEvent, HeartbeatRule.Merge;
      assert Previous(s.st, s.last, op.beaten) == Previous(s.st, map[], op.beaten);
    }
  }

  // ---- Which commands keep the memory coherent ----

  /** Cached extents hold every event, and a query without bounds sees them all. */
  ghost predicate Sound(st: Store) { Bounded(st) && RowsInEra(st.db) }

  predicate Remembered(s: Sys, name: string) { name in s.last && s.last[name].Some? }

  /** The event remembered for the bucket has one of these ids. */
  predicate RemembersOneOf(s: Sys, name: string, ids: set<int>) {
    Remembered(s, name) && s.last[name].value.id.Some? && s.last[name].value.id.value in ids
  }

  /** No other bucket's remembered event has one of these ids. */
  ghost predicate Spares(s: Sys, name: string, ids: set<int>) {
    forall n :: n in s.st.cache && n != name ==> !RemembersOneOf(s, n, ids)
  }

  /** A heartbeat that extends the newest event or starts after it; then it does not
      take another bucket's remembered row by its id. */
  ghost predicate InOrder(s: Sys, name: string, heartbeat: Event, pulsetime: int) {
    var newest := Reread(s.st, name);
    newest.None? || HeartbeatRule.Merge(newest.value, heartbeat, pulsetime).None? ==>
      (newest.Some? ==> heartbeat.timestamp > newest.value.timestamp) && Spares(s, name, AskedIds([heartbeat]))
  }

  /** Times are representable, heartbeats come in order, and no command makes what
      is remembered untrue. */
  ghost predicate Ordered(s: Sys, op: Op) {
    match op
    case Create(name, info, events) =>
      !HasName(s.st.db.buckets, name) ==>
        !Remembered(s, name) && (events.Some? ==> AllInEra(events.value) && Spares(s, name, AskedIds(events.value)))
    case Insert(name, es) => name in s.st.cache ==> AllInEra(es) && Spares(s, name, AskedIds(es))
    case Beat(name, heartbeat, pulsetime) =>
      name in s.st.cache ==> InEra(heartbeat.timestamp, heartbeat.End()) && InOrder(s, name, heartbeat, pulsetime)
    case Rename(from, to) =>
      RenameBucket(s.st, from, to).1.Ok? && Remembered(s, to) ==> Reread(s.st, from) == s.last[to]
    case Drop(_) => true
    case DropEvents(name, ids) => name in s.st.cache ==> !RemembersOneOf(s, name, set i | i in ids)
  }

  lemma BoundedFacts(st: Store)
    requires Bounded(st)
    ensures Valid(st.db) && Entries(st)
    ensures forall m, n :: m in st.cache && n in st.cache && st.cache[m].bid == st.cache[n].bid ==> m == n
    ensures forall n :: n in st.cache ==> st.cache[n].bid < st.db.nextBucket
  {
    EntriesKeepBids(st);
  }

  /** One bucket, some of whose rows were taken away, but not the remembered one. */
  lemma SparedStaysCoherent(s: Sys, st': Store, n: string, ids: set<int>)
    requires Coherent(s) && RowsInEra(s.st.db) && RowsInEra(st'.db) && n in s.st.cache && n in st'.cache &&
             Remembered(s, n)
    requires InBucket(st'.db.events, st'.cache[n].bid) == Sparing(InBucket(s.st.db.events, s.st.cache[n].bid), ids)
    ensures Reread(st', n) == s.last[n] <==> !RemembersOneOf(s, n, ids)
  {
    hide Reread, InBucket, Sparing, RowsInEra;
    SparedReread(s.st, st', n, ids);
  }

  lemma {:induction false} InsertAllKeepsEra(db: Db, bucket: Bucket, es: seq<Event>)
    requires RowsInEra(db) && AllInEra(es)
    ensures RowsInEra(InsertAll(db, bucket, es).0)
    decreases |es|
  {
    if es != [] {
      WithoutMembers(db.events, RowId(db, es[0]));
      assert es[0] in es;
      InsertAllKeepsEra(InsertRow(db, bucket.bid, es[0]), Extend(bucket, es[0]), es[1..]);
    }
  }

  /** Inserting into one bucket takes rows from others only by the ids it asks for. */
  lemma InsertLeavesOthers(s: Sys, st: Store, name: string, es: seq<Event>, n: string)
    requires Coherent(s) && RowsInEra(s.st.db) && Bounded(st) && st.db.events == s.st.db.events
    requires name in st.cache && n in st.cache && n != name && n in s.st.cache && st.cache[n].bid == s.st.cache[n].bid
    requires AllInEra(es) && Remembered(s, n)
    ensures var st' := InsertEvents(st, name, es).0;
            n in st'.cache && (Reread(st', n) == s.last[n] <==> !RemembersOneOf(s, n, AskedIds(es)))
  {
    BoundedFacts(st);
    hide Bounded, Valid, Entries, Reread, InBucket, Sparing, AllInEra, AskedIds, InsertAll;
    InsertAllInBucket(st.db, st.cache[name], es, st.cache[n].bid);
    assert RowsInEra(st.db);
    hide RowsInEra;
    InsertAllKeepsEra(st.db, st.cache[name], es);
    SparedStaysCoherent(s, InsertEvents(st, name, es).0, n, AskedIds(es));
  }

  // ---- Creations ----

  /** A new bucket without events keeps the memory coherent if and only if nothing
      is remembered under its name. */
  lemma CreatedCoherentIff(s: Sys, name: string, info: BucketInfo)
    requires Sound(s.st) && Coherent(s) && !HasName(s.st.db.buckets, name)
    ensures Coherent(Step(s, Create(name, info, None)).0) <==> !Remembered(s, name)
  {
    BoundedFacts(s.st);
    if name in s.st.cache { CachedIsNamed(s.st, name); }
    var s' := Step(s, Create(name, info, None)).0;
    InBucketMembers(s.st.db.events, s.st.db.nextBucket);
    assert InBucket(s.st.db.events, s.st.db.nextBucket) == [] by {
      if InBucket(s.st.db.events, s.st.db.nextBucket) != [] { HasRowIn(InBucket(s.st.db.events, s.st.db.nextBucket)); }
    }
    hide Bounded, Valid, Entries, Reread, InBucket, HasName;
    RereadIsLatest(s'.st, name);
    forall n | n in s.st.cache ensures Reread(s'.st, n) == Reread(s.st, n) {
      SameRowsSameReread(s.st, s'.st, n, n);
    }
  }

  lemma HasRowIn(rows: seq<EventRow>)
    requires rows != []
    ensures exists r :: r in rows
  {
    assert rows[0] in rows;
  }

  lemma CreateKeepsCoherent(s: Sys, name: string, info: BucketInfo, events: Option<seq<Event>>)
    requires Sound(s.st) && Coherent(s) && Ordered(s, Create(name, info, events))
    ensures Coherent(Step(s, Create(name, info, events)).0) && RowsInEra(Step(s, Create(name, info, events)).0.st.db)
  {
    if !HasName(s.st.db.buckets, name) {
      CreatedCoherentIff(s, name, info);
      if events.Some? {
        var st1 := CreateBucket(s.st, name, info, None).0;
        CreateKeepsBounded(s.st, name, info);
        if name in s.st.cache { BoundedFacts(s.st); CachedIsNamed(s.st, name); }
        InsertAllKeepsEra(st1.db, st1.cache[name], events.value);
        hide Bounded, Reread, AllInEra, RowsInEra, AskedIds, InsertAll;
        var s' := Step(s, Create(name, info, events)).0;
        forall n | n in s'.last && s'.last[n].Some? && n in s'.st.cache ensures Reread(s'.st, n) == s'.last[n] {
          InsertLeavesOthers(s, st1, name, events.value, n);
        }
      }
    }
  }

  // ---- Inserts ----

  lemma InsertKeepsCoherent(s: Sys, name: string, es: seq<Event>)
    requires Sound(s.st) && Coherent(s) && Ordered(s, Insert(name, es))
    ensures Coherent(Step(s, Insert(name, es)).0) && RowsInEra(Step(s, Insert(name, es)).0.st.db)
  {
    if name in s.st.cache && es != [] {
      InsertAllKeepsEra(s.st.db, s.st.cache[name], es);
      hide Bounded, Reread, AllInEra, RowsInEra, AskedIds, InsertAll;
      var s' := Step(s, Insert(name, es)).0;
      forall n | n in s'.last && s'.last[n].Some? && n in s'.st.cache ensures Reread(s'.st, n) == s'.last[n] {
        InsertLeavesOthers(s, s.st, name, es, n);
      }
    }
  }

  // ---- Renames ----

  /** A rename that succeeds keeps the memory coherent if and only if nothing is
      remembered under the new name, or just the newest event of the bucket. */
  lemma RenamedCoherentIff(s: Sys, from: string, to: string)
    requires RowsInEra(s.st.db) && Coherent(s) && RenameBucket(s.st, from, to).1.Ok?
    ensures Coherent(Step(s, Rename(from, to)).0) <==> !Remembered(s, to) || Reread(s.st, from) == s.last[to]
  {
    var s' := Step(s, Rename(from, to)).0;
    assert s'.last == s.last && s'.st.db.events == s.st.db.events;
    assert s'.st.cache == (s.st.cache - {from})[to := s.st.cache[from].(id := to)];
    hide Reread, InBucket, RenameBucket;
    SameRowsSameReread(s.st, s'.st, from, to);
    forall n | n in s.st.cache && n != from ensures n in s'.st.cache && Reread(s'.st, n) == Reread(s.st, n) {
      SameRowsSameReread(s.st, s'.st, n, n);
    }
  }

  lemma RenameKeepsCoherent(s: Sys, from: string, to: string)
    requires Sound(s.st) && Coherent(s) && Ordered(s, Rename(from, to))
    ensures Coherent(Step(s, Rename(from, to)).0) && RowsInEra(Step(s, Rename(from, to)).0.st.db)
  {
    hide Bounded, Reread;
    if RenameBucket(s.st, from, to).1.Ok? { RenamedCoherentIff(s, from, to); }
  }

  // ---- Deletions ----

  /** Deleting a bucket always keeps the memory coherent: what is remembered under
      its name is out of use, and no other bucket loses a row. */
  lemma DropKeepsCoherent(s: Sys, name: string)
    requires Sound(s.st) && Coherent(s)
    ensures Coherent(Step(s, Drop(name)).0) && RowsInEra(Step(s, Drop(name)).0.st.db)
  {
    if name in s.st.cache {
      var s' := Step(s, Drop(name)).0;
      var bid := s.st.cache[name].bid;
      BoundedFacts(s.st);
      DroppedRows(s.st.db.events, bid);
      hide Bounded, Valid, Entries, Reread, InBucket, DropRows, DropBucket;
      forall n | n in s'.last && s'.last[n].Some? && n in s'.st.cache ensures Reread(s'.st, n) == s'.last[n] {
        DropRowsInBucket(s.st.db.events, bid, s.st.cache[n].bid);
        SameRowsSameReread(s.st, s'.st, n, n);
      }
    }
  }

  /** Deleting events keeps the memory coherent if and only if the remembered event
      of the bucket is not among them. */
  lemma DeletedCoherentIff(s: Sys, name: string, ids: seq<int>)
    requires Sound(s.st) && Coherent(s) && name in s.st.cache
    ensures RowsInEra(Step(s, DropEvents(name, ids)).0.st.db)
    ensures Coherent(Step(s, DropEvents(name, ids)).0) <==> !RemembersOneOf(s, name, set i | i in ids)
  {
    var s' := Step(s, DropEvents(name, ids)).0;
    var bid, taken := s.st.cache[name].bid, set i | i in ids;
    BoundedFacts(s.st);
    DeleteRowsMembers(s.st.db.events, bid, ids);
    assert RowsInEra(s'.st.db);
    hide Bounded, Valid, Entries, Reread, InBucket, DeleteRows, Sparing, RowsInEra;
    DeleteRowsInBucket(s.st.db.events, bid, ids, bid);
    if Remembered(s, name) { SparedStaysCoherent(s, s'.st, name, taken); }
    forall n | n in s.st.cache && n != name ensures Reread(s'.st, n) == Reread(s.st, n) {
      DeleteRowsInBucket(s.st.db.events, bid, ids, s.st.cache[n].bid);
      SameRowsSameReread(s.st, s'.st, n, n);
    }
  }

  lemma DropEventsKeepsCoherent(s: Sys, name: string, ids: seq<int>)
    requires Sound(s.st) && Coherent(s) && Ordered(s, DropEvents(name, ids))
    ensures Coherent(Step(s, DropEvents(name, ids)).0) && RowsInEra(Step(s, DropEvents(name, ids)).0.st.db)
  {
    hide Bounded, Reread, RowsInEra, DeleteRows;
    if name in s.st.cache { DeletedCoherentIff(s, name, ids); }
  }

  // ---- Heartbeats ----

  /** After an append the newest row is the new one if it starts later, and, if it
      takes no row's id, only then. */
  lemma AppendedReread(st: Store, name: string, e: Event)
    requires Sound(st) && name in st.cache && InEra(e.timestamp, e.End())
    ensures var st' := InsertEvents(st, name, [e]).0;
            var later := Reread(st, name).None? || e.timestamp > Reread(st, name).value.timestamp;
            && name in st'.cache && RowsInEra(st'.db)
            && (later ==> Reread(st', name) == Some(e.(id := Some(RowId(st.db, e)))))
            && (Fresh(st.db, e) && !later ==> Reread(st', name) != Some(e.(id := Some(RowId(st.db, e)))))
  {
    var c := st.cache[name];
    BoundedFacts(st);
    InsertOne(st, name, e);
    hide Bounded, Valid, Entries, Latest, InBucket, Reread, InsertRow, Extend, InsertEvents, Fresh;
    AppendedEra(st.db, c.bid, e);
    var st' := InsertEvents(st, name, [e]).0;
    ExtendKeepsBid(c, e);
    RereadIsLatest(st, name);
    RereadIsLatest(st', name);
    AppendedLatest(st.db, c.bid, e);
    assert EventOf(NewRow(st.db, c.bid, e)) == e.(id := Some(RowId(st.db, e)));
  }

  lemma AppendedEra(db: Db, bid: int, e: Event)
    requires RowsInEra(db) && InEra(e.timestamp, e.End())
    ensures RowsInEra(InsertRow(db, bid, e))
  {
    WithoutMembers(db.events, RowId(db, e));
  }

  lemma AppendedLatest(db: Db, bid: int, e: Event)
    requires Valid(db)
    ensures var rows, row := InBucket(db.events, bid), NewRow(db, bid, e);
            var rows' := InBucket(InsertRow(db, bid, e).events, bid);
            && rows' != []
            && (rows == [] || row.start > Latest(rows).start ==> Latest(rows') == row)
            && (Fresh(db, e) && rows != [] && row.start <= Latest(rows).start ==> Latest(rows').id != row.id)
  {
    var rows, row := InBucket(db.events, bid), NewRow(db, bid, e);
    var rest := Sparing(rows, {row.id});
    InBucketMembers(db.events, bid);
    if Fresh(db, e) { SparingAbsent(rows, {row.id}); }
    hide Valid, InBucket, InsertRow, Latest, Sparing, Fresh;
    InsertRowInBucket(db, bid, e, bid);
    LatestAppend(rest, row);
    SparingMembers(rows, {row.id});
    if rows != [] { LatestIsFirst(rows); }
    if rest != [] { LatestIsFirst(rest); }
  }

  lemma EraOfPrevious(st: Store, name: string)
    requires RowsInEra(st.db) && name in st.cache && Reread(st, name).Some?
    ensures var prev := Reread(st, name).value; InEra(prev.timestamp, prev.End())
  {
    RereadIsLatest(st, name);
    NewestIsRow(st.db, st.cache[name].bid);
    hide Reread, Latest, InBucket;
  }

  lemma RewrittenEra(st: Store, name: string, id: int, m: Event)
    requires RowsInEra(st.db) && name in st.cache && InEra(m.timestamp, m.End())
    ensures RowsInEra(ReplaceLastEvent(st, name, id, m).0.db)
  {
    UpdateRowMembers(st.db.events, st.cache[name].bid, id, m);
    hide UpdateRow, HasRow;
  }

  /** Rewriting the newest row under the same start: re-reading gives it back. */
  lemma RewrittenReread(st: Store, name: string, prev: Event, m: Event)
    requires Valid(st.db) && RowsInEra(st.db) && name in st.cache && Reread(st, name) == Some(prev)
    requires m.timestamp == prev.timestamp && InEra(m.timestamp, m.End())
    ensures prev.id.Some? && HasRow(st.db.events, st.cache[name].bid, prev.id.value)
    ensures var st' := ReplaceLastEvent(st, name, prev.id.value, m).0;
            name in st'.cache && RowsInEra(st'.db) && Reread(st', name) == Some(m.(id := prev.id))
  {
    var bid := st.cache[name].bid;
    var rows := InBucket(st.db.events, bid);
    UniqueIdsInBucket(st.db, bid);
    RereadIsLatest(st, name);
    NewestIsRow(st.db, bid);
    hide Latest, InBucket, Reread, Extend, HasRow, UpdateRow, Valid;
    LatestRewritten(rows, bid, m);
    var id := prev.id.value;
    RewrittenEra(st, name, id, m);
    UpdateRowInBucket(st.db.events, bid, id, m, bid);
    ExtendKeepsBid(st.cache[name], m);
    hide RowsInEra;
    var st' := ReplaceLastEvent(st, name, id, m).0;
    assert UpdateRow(rows, bid, id, m) != [];
    RereadIsLatest(st', name);
  }

  /** A heartbeat on a coherent memory, spelled out: appended, or merged. */
  lemma AppendedBeat(s: Sys, name: string, heartbeat: Event, pulsetime: int)
    requires Coherent(s) && name in s.st.cache
    requires var newest := Reread(s.st, name);
            newest.None? || HeartbeatRule.Merge(newest.value, heartbeat, pulsetime).None?
    ensures var s' := Step(s, Beat(name, heartbeat, pulsetime)).0;
            && s'.st == InsertEvents(s.st, name, [heartbeat]).0 && s'.st.cache.Keys == s.st.cache.Keys
            && s'.last == if Reread(s.st, name).None? then s.last - {name}
                          else (s.last - {name})[name := Some(heartbeat.(id := Some(RowId(s.st.db, heartbeat))))]
  {
    InsertOne(s.st, name, heartbeat);
    hide InsertEvents, InsertRow, Extend, Reread, HeartbeatRule.Merge;
    assert Previous(s.st, s.last, name) == Reread(s.st, name);
  }

  lemma MergedBeat(s: Sys, name: string, heartbeat: Event, pulsetime: int)
    requires Coherent(s) && name in s.st.cache && Reread(s.st, name).Some?
    requires HeartbeatRule.Merge(Reread(s.st, name).value, heartbeat, pulsetime).Some?
    requires var prev := Reread(s.st, name).value;
            prev.id.Some? && HasRow(s.st.db.events, s.st.cache[name].bid, prev.id.value)
    ensures var s', prev := Step(s, Beat(name, heartbeat, pulsetime)).0, Reread(s.st, name).value;
            var m := HeartbeatRule.Merge(prev, heartbeat, pulsetime).value;
            && s'.st == ReplaceLastEvent(s.st, name, prev.id.value, m).0
            && s'.last == (s.last - {name})[name := Some(m.(id := prev.id))]
  {
    hide InsertEvents, UpdateRow, Extend, Reread, HeartbeatRule.Merge, HasRow;
    assert Previous(s.st, s.last, name) == Reread(s.st, name);
  }

  lemma AppendedBeatKeepsCoherent(s: Sys, name: string, heartbeat: Event, pulsetime: int)
    requires Sound(s.st) && Coherent(s) && name in s.st.cache && InEra(heartbeat.timestamp, heartbeat.End())
    requires var newest := Reread(s.st, name);
            newest.None? || HeartbeatRule.Merge(newest.value, heartbeat, pulsetime).None?
    requires Reread(s.st, name).Some? ==> heartbeat.timestamp > Reread(s.st, name).value.timestamp
    requires Spares(s, name, AskedIds([heartbeat]))
    ensures var s' := Step(s, Beat(name, heartbeat, pulsetime)).0; Coherent(s') && RowsInEra(s'.st.db)
  {
    AppendedReread(s.st, name, heartbeat);
    AppendedBeat(s, name, heartbeat, pulsetime);
    assert AllInEra([heartbeat]);
    hide Bounded, Reread, RowsInEra, AllInEra, InsertEvents, AskedIds, Step;
    var s' := Step(s, Beat(name, heartbeat, pulsetime)).0;
    forall n | n in s'.last && s'.last[n].Some? && n in s'.st.cache ensures Reread(s'.st, n) == s'.last[n] {
      if n != name { InsertLeavesOthers(s, s.st, name, [heartbeat], n); }
    }
  }

  lemma MergedBeatKeepsCoherent(s: Sys, name: string, heartbeat: Event, pulsetime: int)
    requires Sound(s.st) && Coherent(s) && name in s.st.cache && InEra(heartbeat.timestamp, heartbeat.End())
    requires Reread(s.st, name).Some? && HeartbeatRule.Merge(Reread(s.st, name).value, heartbeat, pulsetime).Some?
    ensures var s' := Step(s, Beat(name, heartbeat, pulsetime)).0; Coherent(s') && RowsInEra(s'.st.db)
  {
    var prev := Reread(s.st, name).value;
    var m := HeartbeatRule.Merge(prev, heartbeat, pulsetime).value;
    HeartbeatRule.MergeFacts(prev, heartbeat, pulsetime);
    EraOfPrevious(s.st, name);
    BoundedFacts(s.st);
    hide Bounded, Valid, Entries, Reread, HasRow, HeartbeatRule.Merge;
    RewrittenReread(s.st, name, prev, m);
    MergedBeat(s, name, heartbeat, pulsetime);
    hide Step;
    var s' := Step(s, Beat(name, heartbeat, pulsetime)).0;
    forall n | n in s'.last && s'.last[n].Some? && n in s'.st.cache ensures Reread(s'.st, n) == s'.last[n] {
      if n != name { RewriteLeavesOthers(s.st, name, prev.id.value, m, n); }
    }
  }

  lemma RewriteLeavesOthers(st: Store, name: string, id: int, m: Event, n: string)
    requires Bounded(st) && RowsInEra(st.db) && InEra(m.timestamp, m.End()) && name in st.cache && n != name
    ensures var st' := ReplaceLastEvent(st, name, id, m).0;
            (n in st'.cache <==> n in st.cache) && (n in st.cache ==> Reread(st', n) == Reread(st, n))
  {
    BoundedFacts(st);
    RewrittenEra(st, name, id, m);
    hide Bounded, Valid, Entries, Reread, InBucket, HasRow, UpdateRow, RowsInEra, Extend;
    if n in st.cache {
      UpdateRowInBucket(st.db.events, st.cache[name].bid, id, m, st.cache[n].bid);
      SameRowsSameReread(st, ReplaceLastEvent(st, name, id, m).0, n, n);
    }
  }

  lemma BeatKeepsCoherent(s: Sys, name: string, heartbeat: Event, pulsetime: int)
    requires Sound(s.st) && Coherent(s) && Ordered(s, Beat(name, heartbeat, pulsetime))
    ensures var s' := Step(s, Beat(name, heartbeat, pulsetime)).0; Coherent(s') && RowsInEra(s'.st.db)
  {
    if name in s.st.cache {
      hide Sound, Coherent, Reread, HeartbeatRule.Merge, Step, Spares, RowsInEra;
      var newest := Reread(s.st, name);
      if newest.None? || HeartbeatRule.Merge(newest.value, heartbeat, pulsetime).None? {
        AppendedBeatKeepsCoherent(s, name, heartbeat, pulsetime);
      } else {
        MergedBeatKeepsCoherent(s, name, heartbeat, pulsetime);
      }
    }
  }

  /** The order is needed: a heartbeat with a new id that cannot be merged keeps the
      memory coherent if and only if it starts after the newest stored event. */
  lemma AppendedBeatCoherentIff(s: Sys, name: string, heartbeat: Event, pulsetime: int)
    requires Sound(s.st) && Coherent(s) && name in s.st.cache
    requires InEra(heartbeat.timestamp, heartbeat.End()) && Fresh(s.st.db, heartbeat) &&
             Spares(s, name, AskedIds([heartbeat]))
    requires Reread(s.st, name).Some? && HeartbeatRule.Merge(Reread(s.st, name).value, heartbeat, pulsetime).None?
    ensures Coherent(Step(s, Beat(name, heartbeat, pulsetime)).0) <==>
            heartbeat.timestamp > Reread(s.st, name).value.timestamp
  {
    hide Sound, Reread, HeartbeatRule.Merge, Step, Fresh, Spares;
    AppendedBeat(s, name, heartbeat, pulsetime);
    AppendedReread(s.st, name, heartbeat);
    if heartbeat.timestamp > Reread(s.st, name).value.timestamp {
      AppendedBeatKeepsCoherent(s, name, heartbeat, pulsetime);
    }
  }

  // ---- Every run ----

  lemma StepKeepsCoherent(s: Sys, op: Op)
    requires Sound(s.st) && Coherent(s) && Ordered(s, op)
    ensures Coherent(Step(s, op).0) && Sound(Step(s, op).0.st)
  {
    StepKeepsBounded(s, op);
    hide Coherent, Bounded, RowsInEra, Ordered, Step;
    match op
    case Create(name, info, events) => CreateKeepsCoherent(s, name, info, events);
    case Insert(name, es) => InsertKeepsCoherent(s, name, es);
    case Beat(name, heartbeat, pulsetime) => BeatKeepsCoherent(s, name, heartbeat, pulsetime);
    case Rename(from, to) => RenameKeepsCoherent(s, from, to);
    case Drop(name) => DropKeepsCoherent(s, name);
    case DropEvents(name, ids) => DropEventsKeepsCoherent(s, name, ids);
  }

  ghost predicate AllOrdered(s: Sys, ops: seq<Op>)
    decreases |ops|
  {
    ops == [] || (Ordered(s, ops[0]) && AllOrdered(Step(s, ops[0]).0, ops[1..]))
  }

  /** In every run of creations, inserts, ordered heartbeats, renames and deletions
      that leave what is remembered true, the remembered heartbeats change nothing:
      every response, both tables and the bucket cache are those of re-reading the
      newest row each time. */
  lemma {:induction false} RunRefinesUncached(s: Sys, ops: seq<Op>)
    requires Sound(s.st) && Coherent(s) && AllOrdered(s, ops)
    ensures (Run(s, ops).0.st, Run(s, ops).1) == UncachedRun(s.st, ops)
    ensures Coherent(Run(s, ops).0)
    decreases |ops|
  {
    if ops != [] {
      hide Sound, Coherent, Ordered, Step;
      CoherentStepAgrees(s, ops[0]);
      StepKeepsCoherent(s, ops[0]);
      RunRefinesUncached(Step(s, ops[0]).0, ops[1..]);
    }
  }
}
