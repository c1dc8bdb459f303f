/** Importing an export file: new buckets are created with their events, and the
    events of a bucket that exists are added unless they are there already. */
module ImportEndpoint {
  import opened Events
  import opened StoreSpec
  import opened BucketCache
  import opened Datastore
  import opened StoreRuns
  import opened StoreFacts

  datatype BucketExport = BucketExport(name: string, info: BucketInfo, events: Option<seq<Event>>)

  /** What makes two events the same one to the import: not their ids. */
  datatype Identity = Identity(timestamp: int, duration: int, data: Data)

  function IdentityOf(e: Event): Identity { Identity(e.timestamp, e.duration, e.data) }

  function MinTimestamp(es: seq<Event>): int
    requires es != []
  {
    if |es| == 1 then es[0].timestamp else Min(es[0].timestamp, MinTimestamp(es[1..]))
  }

  function LastEnd(es: seq<Event>): int
    requires es != []
  {
    if |es| == 1 then es[0].End() else Max(es[0].End(), LastEnd(es[1..]))
  }

  function Unseen(es: seq<Event>, existing: set<Identity>): seq<Event> {
    if es == [] then []
    else (if IdentityOf(es[0]) in existing then [] else [es[0]]) + Unseen(es[1..], existing)
  }

  function Identities(es: seq<Event>): set<Identity> { set e | e in es :: IdentityOf(e) }

  function MergeEvents(st: Store, name: string, es: seq<Event>): (Store, Result<()>) {
    if es == [] then (st, Ok(()))
    else
      var existing := GetEvents(st, name, Some(MinTimestamp(es)), Some(LastEnd(es)), None, false);
      if existing.Err? then (st, Err(existing.error))
      else
        var unseen := Unseen(es, Identities(existing.value));
        if unseen == [] then (st, Ok(()))
        else
          var (st', r) := InsertEvents(st, name, unseen);
          (st', if r.Ok? then Ok(()) else Err(r.error))
  }

  function ImportBucket(st: Store, b: BucketExport): (Store, Result<()>) {
    var (st', created) := CreateBucket(st, b.name, b.info, b.events);
    if created.Err? && created.error.BucketAlreadyExists? then
      if b.events.Some? then MergeEvents(st', b.name, b.events.value) else (st', Ok(()))
    else (st', created)
  }

  function Imported(st: Store, buckets: seq<BucketExport>): (Store, Result<()>)
    decreases |buckets|
  {
    if buckets == [] then (st, Ok(()))
    else
      var (st', r) := ImportBucket(st, buckets[0]);
      if r.Err? then (st', r) else Imported(st', buckets[1..])
  }

  // ---- The loops ----

  lemma KeysKept(st: Store, b: BucketExport)
    requires KeysMatch(st.cache)
    ensures KeysMatch(ImportBucket(st, b).0.cache)
  {
    hide InsertEvents, GetEvents, HasName;
    if b.events.Some? {
      var st' := CreateBucket(st, b.name, b.info, None).0;
      InsertKeepsKeys(st', b.name, b.events.value);
      if b.events.value != [] {
        var es := b.events.value;
        var existing := GetEvents(st, b.name, Some(MinTimestamp(es)), Some(LastEnd(es)), None, false);
        if existing.Ok? { InsertKeepsKeys(st, b.name, Unseen(es, Identities(existing.value))); }
      }
    }
  }

  method CollectIdentities(es: seq<Event>) returns (identities: set<Identity>)
    ensures identities == Identities(es)
  {
    identities := {};
    for i := 0 to |es|
      invariant identities == Identities(es[..i])
    {
      identities := identities + {IdentityOf(es[i])};
    }
    assert es[..|es|] == es;
  }

  method DropSeen(es: seq<Event>, existing: set<Identity>) returns (unseen: seq<Event>)
    ensures unseen == Unseen(es, existing)
  {
    unseen := [];
    assert es[0..] == es;
    for i := 0 to |es|
      invariant unseen + Unseen(es[i..], existing) == Unseen(es, existing)
    {
      assert es[i..][1..] == es[i + 1..];
      if IdentityOf(es[i]) !in existing {
        unseen := unseen + [es[i]];
      }
    }
    assert es[|es|..] == [];
  }

  method Merge(ds: DatastoreInstance, name: string, es: seq<Event>) returns (r: Result<()>)
    requires KeysMatch(ds.cache)
    modifies ds
    ensures (ds.State(), r) == MergeEvents(old(ds.State()), name, es)
  {
    hide StoreSpec.GetEvents, StoreSpec.InsertEvents, MinTimestamp, LastEnd, Unseen, Identities;
    if es == [] {
      return Ok(());
    }
    var existing := ds.GetEvents(name, Some(MinTimestamp(es)), Some(LastEnd(es)), None, false);
    if existing.Err? {
      return Err(existing.error);
    }
    var identities := CollectIdentities(existing.value);
    var unseen := DropSeen(es, identities);
    if unseen != [] {
      var inserted := ds.InsertEvents(name, unseen);
      if inserted.Err? {
        return Err(inserted.error);
      }
    }
    return Ok(());
  }

  method Import(ds: DatastoreInstance, buckets: seq<BucketExport>) returns (r: Result<()>)
    requires KeysMatch(ds.cache)
    modifies ds
    ensures (ds.State(), r) == Imported(old(ds.State()), buckets)
  {
    ghost var st0 := ds.State();
    assert buckets[0..] == buckets;
    for i := 0 to |buckets|
      invariant KeysMatch(ds.cache)
      invariant Imported(ds.State(), buckets[i..]) == Imported(st0, buckets)
    {
      var b := buckets[i];
      ghost var st := ds.State();
      assert buckets[i..][0] == b && buckets[i..][1..] == buckets[i + 1..];
      KeysKept(st, b);
      var created := ds.CreateBucket(b.name, b.info, b.events);
      if created.Err? {
        if !created.error.BucketAlreadyExists? {
          return Err(created.error);
        }
        if b.events.Some? {
          assert ds.State() == CreateBucket(st, b.name, b.info, b.events).0;
          var merged := Merge(ds, b.name, b.events.value);
          if merged.Err? {
            return merged;
          }
        }
      }
    }
    assert buckets[|buckets|..] == [];
    return Ok(());
  }

  // ---- What the duplicate query sees ----

  function RowIdentity(r: EventRow): Identity { Identity(r.start, r.end - r.start, r.data) }

  /** The identities of the events stored for a bucket. */
  ghost function StoredIdentities(db: Db, bid: int): set<Identity> {
    set r | r in db.events && r.bucketrow == bid :: RowIdentity(r)
  }

  /** The event touches the stretch from the first start to the last end of
      `es`. It always does if durations are not negative. */
  predicate Seen(es: seq<Event>, e: Event)
    requires es != []
  {
    MinTimestamp(es) <= e.End() && e.timestamp <= LastEnd(es)
  }

  ghost predicate AllSeen(es: seq<Event>) {
    es == [] || forall e :: e in es ==> Seen(es, e)
  }

  ghost predicate WithoutIds(es: seq<Event>) {
    forall e :: e in es ==> e.id.None?
  }

  lemma {:induction false} StretchFacts(es: seq<Event>)
    requires es != []
    ensures forall e :: e in es ==> MinTimestamp(es) <= e.timestamp && e.End() <= LastEnd(es)
  {
    if |es| > 1 {
      StretchFacts(es[1..]);
      assert es == [es[0]] + es[1..];
    }
  }

  lemma NonNegativeIsSeen(es: seq<Event>)
    requires NonNegative(es)
    ensures AllSeen(es)
  {
    if es != [] { StretchFacts(es); }
  }

  lemma InRangeMembers(rows: seq<EventRow>, bid: int, from: int, to: int)
    ensures forall r :: r in InRange(rows, bid, from, to) <==> r in rows && Asked(r, bid, from, to)
  {
    forall r ensures r in InRange(rows, bid, from, to) <==> r in rows && Asked(r, bid, from, to) {
      InRangeCounts(rows, bid, from, to, r);
      assert r in multiset(rows) <==> r in rows;
      assert r in multiset(InRange(rows, bid, from, to)) <==> r in InRange(rows, bid, from, to);
    }
  }

  lemma LatestFirstMembers(rows: seq<EventRow>)
    ensures forall x :: x in LatestFirst(rows) <==> x in rows
  {
    LatestFirstFacts(rows);
    assert forall x :: x in multiset(rows) <==> x in rows;
    assert forall x :: x in multiset(LatestFirst(rows)) <==> x in LatestFirst(rows);
  }

  lemma ToEventsIdentities(rows: seq<EventRow>, from: int, to: int, x: Identity)
    ensures x in Identities(ToEvents(rows, from, to, false)) <==> exists r :: r in rows && RowIdentity(r) == x
  {
    var es := ToEvents(rows, from, to, false);
    if x in Identities(es) {
      var i :| 0 <= i < |es| && IdentityOf(es[i]) == x;
      assert RowIdentity(rows[i]) == x;
    }
    if r :| r in rows && RowIdentity(r) == x {
      var i :| 0 <= i < |rows| && rows[i] == r;
      assert es[i] in es && IdentityOf(es[i]) == x;
    }
  }

  function Existing(st: Store, name: string, es: seq<Event>): set<Identity>
    requires es != [] && name in st.cache
  {
    Identities(GetEvents(st, name, Some(MinTimestamp(es)), Some(LastEnd(es)), None, false).value)
  }

  /** An event is recognised exactly if it is stored and the query's range
      reaches it. */
  lemma RecognisedIff(st: Store, name: string, es: seq<Event>, e: Event)
    requires name in st.cache && e in es
    ensures IdentityOf(e) in Existing(st, name, es) <==>
            IdentityOf(e) in StoredIdentities(st.db, st.cache[name].bid) && Seen(es, e)
  {
    hide InRange, LatestFirst, MinTimestamp, LastEnd, Identities;
    var bid := st.cache[name].bid;
    var from, to := MinTimestamp(es), LastEnd(es);
    StretchFacts(es);
    if from <= to {
      var rows := LatestFirst(InRange(st.db.events, bid, from, to));
      InRangeMembers(st.db.events, bid, from, to);
      LatestFirstMembers(InRange(st.db.events, bid, from, to));
      ToEventsIdentities(rows, from, to, IdentityOf(e));
    } else {
      assert IdentityOf(e) !in Identities(ToEvents([], from, to, false)) by {
        ToEventsIdentities([], from, to, IdentityOf(e));
      }
      assert ToEvents([], from, to, false) == [];
    }
  }

  // ---- What an import adds ----

  ghost predicate Ready(st: Store) { Valid(st.db) && Entries(st) }

  function NewRows(bid: int, next: int, es: seq<Event>): (rows: seq<EventRow>)
    ensures |rows| == |es|
  {
    seq(|es|, i requires 0 <= i < |es| => EventRow(next + i, bid, es[i].timestamp, es[i].End(), es[i].data))
  }

  lemma AppendOne(db: Db, bid: int, e: Event)
    requires Valid(db) && bid < db.nextBucket && e.id.None?
    ensures var db' := InsertRow(db, bid, e);
            && Valid(db') && db' == db.(events := db.events + [NewRow(db, bid, e)], nextEvent := db.nextEvent + 1)
            && NewRow(db, bid, e) == EventRow(db.nextEvent, bid, e.timestamp, e.End(), e.data)
  {
    InsertRowFacts(db, bid, e);
    WithoutAbsent(db.events, db.nextEvent);
  }

  lemma AppendedRows(bid: int, next: int, es: seq<Event>)
    requires es != []
    ensures NewRows(bid, next, es) ==
      [EventRow(next, bid, es[0].timestamp, es[0].End(), es[0].data)] + NewRows(bid, next + 1, es[1..])
  {}

  lemma {:induction false} InsertAppends(db: Db, bucket: Bucket, es: seq<Event>)
    requires Valid(db) && bucket.bid < db.nextBucket && WithoutIds(es)
    ensures InsertAll(db, bucket, es).0 ==
      db.(events := db.events + NewRows(bucket.bid, db.nextEvent, es), nextEvent := db.nextEvent + |es|)
    decreases |es|
  {
    hide Valid, InsertRow, Extend;
    if es == [] {
      assert db.events + NewRows(bucket.bid, db.nextEvent, es) == db.events;
    } else {
      var row := NewRow(db, bucket.bid, es[0]);
      AppendOne(db, bucket.bid, es[0]);
      ExtendKeepsBid(bucket, es[0]);
      InsertAppends(InsertRow(db, bucket.bid, es[0]), Extend(bucket, es[0]), es[1..]);
      AppendedRows(bucket.bid, db.nextEvent, es);
      assert db.events + [row] + NewRows(bucket.bid, db.nextEvent + 1, es[1..])
          == db.events + NewRows(bucket.bid, db.nextEvent, es);
    }
  }

  lemma {:induction false} UnseenMembers(es: seq<Event>, existing: set<Identity>)
    ensures forall e :: e in Unseen(es, existing) <==> e in es && IdentityOf(e) !in existing
  {
    if es != [] {
      UnseenMembers(es[1..], existing);
      assert es == [es[0]] + es[1..];
    }
  }

  /** The events an import adds to the bucket it names. */
  function Added(st: Store, b: BucketExport): seq<Event>
    requires HasName(st.db.buckets, b.name) ==> b.name in st.cache
  {
    var es := if b.events.Some? then b.events.value else [];
    if es != [] && HasName(st.db.buckets, b.name) then Unseen(es, Existing(st, b.name, es)) else es
  }

  lemma InsertKeepsReady(st: Store, name: string, es: seq<Event>)
    requires Ready(st) && name in st.cache && WithoutIds(es)
    ensures var st' := InsertEvents(st, name, es).0;
            && InsertEvents(st, name, es).1.Ok?
            && Ready(st') && st'.db.buckets == st.db.buckets && st'.cache.Keys == st.cache.Keys
            && st'.db.events == st.db.events + NewRows(st.cache[name].bid, st.db.nextEvent, es)
            && forall n :: n in st.cache ==> st'.cache[n].bid == st.cache[n].bid
  {
    var c := st.cache[name];
    EntriesKeepBids(st);
    InsertAppends(st.db, c, es);
    InsertAllKeepsName(st.db, c, es);
    var st' := InsertEvents(st, name, es).0;
    AppendedIsValid(st.db, c.bid, es);
    hide InsertAll, Valid, NewRows;
    assert RowOf(st'.cache[name]) == RowOf(c);
  }

  lemma AppendedIsValid(db: Db, bid: int, es: seq<Event>)
    requires Valid(db) && bid < db.nextBucket
    ensures Valid(db.(events := db.events + NewRows(bid, db.nextEvent, es), nextEvent := db.nextEvent + |es|))
  {
    var rows := NewRows(bid, db.nextEvent, es);
    forall i, j | 0 <= i < j < |db.events + rows| ensures (db.events + rows)[i].id != (db.events + rows)[j].id {
      if i < |db.events| { assert db.events[i] in db.events; }
    }
  }

  ghost predicate Identified(b: BucketExport) { b.events.Some? ==> WithoutIds(b.events.value) }

  /** One imported bucket, for events without ids: it cannot fail; rows are only
      added, each for one of its events, in order. */
  lemma ImportAppends(st: Store, b: BucketExport)
    requires Ready(st) && Identified(b)
    ensures HasName(st.db.buckets, b.name) ==> b.name in st.cache
    ensures var (st', r) := ImportBucket(st, b);
            && r == Ok(()) && Ready(st') && b.name in st'.cache && HasName(st'.db.buckets, b.name)
            && (!HasName(st.db.buckets, b.name) ==> st'.cache[b.name].bid == st.db.nextBucket)
            && st'.db.events == st.db.events + NewRows(st'.cache[b.name].bid, st.db.nextEvent, Added(st, b))
            && (forall n :: n in st.cache ==> n in st'.cache && st'.cache[n].bid == st.cache[n].bid)
            && (forall x :: x in st.db.buckets ==> x in st'.db.buckets)
  {
    if HasName(st.db.buckets, b.name) {
      HadName(st, b.name);
      MergeAppends(st, b);
    } else {
      CreateAppends(st, b);
    }
  }

  lemma HadName(st: Store, name: string)
    requires Entries(st) && HasName(st.db.buckets, name)
    ensures name in st.cache
  {}

  lemma MergeAppends(st: Store, b: BucketExport)
    requires Ready(st) && Identified(b) && HasName(st.db.buckets, b.name) && b.name in st.cache
    ensures var (st', r) := ImportBucket(st, b);
            && r == Ok(()) && Ready(st') && st'.db.buckets == st.db.buckets && st'.cache.Keys == st.cache.Keys
            && st'.db.events == st.db.events + NewRows(st.cache[b.name].bid, st.db.nextEvent, Added(st, b))
            && forall n :: n in st.cache ==> st'.cache[n].bid == st.cache[n].bid
  {
    hide Ready, NewRows, Unseen, Identities, InsertEvents, HasName, MinTimestamp, LastEnd;
    if b.events.Some? && b.events.value != [] && Added(st, b) != [] {
      UnseenMembers(b.events.value, Existing(st, b.name, b.events.value));
      InsertKeepsReady(st, b.name, Added(st, b));
    } else {
      NoNewRows(st.cache[b.name].bid, st.db.nextEvent);
    }
  }

  lemma NoNewRows(bid: int, next: int)
    ensures NewRows(bid, next, []) == []
  {}

  lemma CreatedFacts(st: Store, name: string, info: BucketInfo)
    requires Ready(st) && !HasName(st.db.buckets, name)
    ensures name !in st.cache && Ready(CreateBucket(st, name, info, None).0)
    ensures HasName(st.db.buckets + [BucketRow(st.db.nextBucket, name, info)], name)
  {
    CreateKeepsEntries(st, name, info);
    var row := BucketRow(st.db.nextBucket, name, info);
    assert row in st.db.buckets + [row];
    hide Valid;
  }

  lemma CreateAppends(st: Store, b: BucketExport)
    requires Ready(st) && Identified(b) && !HasName(st.db.buckets, b.name)
    ensures var (st', r) := ImportBucket(st, b);
            && r == Ok(()) && Ready(st') && b.name in st'.cache && HasName(st'.db.buckets, b.name)
            && st'.db.events == st.db.events + NewRows(st.db.nextBucket, st.db.nextEvent, Added(st, b))
            && st'.cache[b.name].bid == st.db.nextBucket
            && (forall n :: n in st.cache ==> n in st'.cache && st'.cache[n].bid == st.cache[n].bid)
            && (forall x :: x in st.db.buckets ==> x in st'.db.buckets)
  {
    hide Ready, Entries, NewRows, InsertEvents, HasName, WithoutIds;
    var st1 := CreateBucket(st, b.name, b.info, None).0;
    CreatedFacts(st, b.name, b.info);
    if b.events.Some? {
      InsertKeepsReady(st1, b.name, b.events.value);
    } else {
      NoNewRows(st.db.nextBucket, st.db.nextEvent);
    }
  }

  // ---- Importing again ----

  /** The bucket is there, and each of its events is stored. */
  ghost predicate Holds(st: Store, b: BucketExport) {
    && HasName(st.db.buckets, b.name) && b.name in st.cache
    && (b.events.Some? ==> Identities(b.events.value) <= StoredIdentities(st.db, st.cache[b.name].bid))
  }

  lemma AppendedIdentities(db: Db, db': Db, bid: int, next: int, es: seq<Event>, other: int)
    requires db'.events == db.events + NewRows(bid, next, es)
    ensures StoredIdentities(db', other) == StoredIdentities(db, other) + if other == bid then Identities(es) else {}
  {
    var rows := NewRows(bid, next, es);
    forall x | x in StoredIdentities(db, other) ensures x in StoredIdentities(db', other) {
      var r :| r in db.events && r.bucketrow == other && RowIdentity(r) == x;
      assert r in db'.events;
    }
    if other == bid {
      forall x | x in Identities(es) ensures x in StoredIdentities(db', other) {
        var i :| 0 <= i < |es| && IdentityOf(es[i]) == x;
        assert rows[i] in db'.events && RowIdentity(rows[i]) == x;
      }
    }
    forall x | x in StoredIdentities(db', other)
      ensures x in StoredIdentities(db, other) || (other == bid && x in Identities(es))
    {
      var r :| r in db'.events && r.bucketrow == other && RowIdentity(r) == x;
      if r !in db.events {
        var i :| 0 <= i < |rows| && rows[i] == r;
        assert IdentityOf(es[i]) == x;
      }
    }
  }

  function EventsOf(b: BucketExport): seq<Event> { if b.events.Some? then b.events.value else [] }

  lemma AddedIdentities(st: Store, b: BucketExport)
    requires b.name in st.cache && HasName(st.db.buckets, b.name)
    ensures var stored := StoredIdentities(st.db, st.cache[b.name].bid);
            stored + Identities(Added(st, b)) == stored + Identities(EventsOf(b))
  {
    var es := EventsOf(b);
    if es != [] {
      var stored := StoredIdentities(st.db, st.cache[b.name].bid);
      UnseenMembers(es, Existing(st, b.name, es));
      hide StoredIdentities, Existing, Unseen, Seen;
      forall x | x in Identities(es) ensures x in stored + Identities(Added(st, b)) {
        var e :| e in es && IdentityOf(e) == x;
        RecognisedIff(st, b.name, es, e);
        if e in Added(st, b) { assert x in Identities(Added(st, b)); }
      }
    }
  }

  lemma NothingStoredYet(db: Db)
    requires Valid(db)
    ensures StoredIdentities(db, db.nextBucket) == {}
  {}

  /** An import is a union: afterwards a bucket holds the events it held and
      those imported into it, told apart by start, duration and data; and no
      other bucket has changed. */
  lemma ImportIsUnion(st: Store, b: BucketExport, name: string)
    requires Ready(st) && Identified(b) && (name == b.name || name in st.cache)
    ensures var st' := ImportBucket(st, b).0;
            && name in st'.cache
            && StoredIdentities(st'.db, st'.cache[name].bid) ==
                 (if name in st.cache then StoredIdentities(st.db, st.cache[name].bid) else {}) +
                 (if name == b.name then Identities(EventsOf(b)) else {})
  {
    ImportAppends(st, b);
    var st' := ImportBucket(st, b).0;
    EntriesKeepBids(st');
    NothingStoredYet(st.db);
    if name in st.cache { CachedIsNamed(st, name); }
    hide Ready, ImportBucket, StoredIdentities, NewRows, Existing, Unseen, Identities, HasName;
    var bid := st'.cache[b.name].bid;
    AppendedIdentities(st.db, st'.db, bid, st.db.nextEvent, Added(st, b), st'.cache[name].bid);
    if name == b.name && name in st.cache { AddedIdentities(st, b); }
  }

  lemma ImportHolds(st: Store, b: BucketExport)
    requires Ready(st) && Identified(b)
    ensures Holds(ImportBucket(st, b).0, b)
  {
    ImportAppends(st, b);
    ImportIsUnion(st, b, b.name);
    hide Ready, ImportBucket, StoredIdentities, Identities, HasName, Identified;
  }

  lemma ImportKeepsHeld(st: Store, b: BucketExport, c: BucketExport)
    requires Ready(st) && Identified(b) && Holds(st, c)
    ensures Holds(ImportBucket(st, b).0, c)
  {
    ImportAppends(st, b);
    ImportIsUnion(st, b, c.name);
    CachedIsNamed(ImportBucket(st, b).0, c.name);
    hide Ready, ImportBucket, StoredIdentities, Identities, HasName, Identified;
  }

  /** A bucket whose events are all stored: importing it changes nothing if the
      duplicate query reaches them all, and otherwise adds events again. */
  lemma ImportOfHeld(st: Store, b: BucketExport)
    requires Holds(st, b)
    ensures AllSeen(EventsOf(b)) ==> ImportBucket(st, b) == (st, Ok(()))
    ensures !AllSeen(EventsOf(b)) ==> Added(st, b) != []
  {
    var es := EventsOf(b);
    if es != [] {
      UnseenMembers(es, Existing(st, b.name, es));
      forall e | e in es ensures IdentityOf(e) in Existing(st, b.name, es) <==> Seen(es, e) {
        RecognisedIff(st, b.name, es, e);
        assert IdentityOf(e) in Identities(es);
      }
      hide StoredIdentities, Identities, Seen, Unseen, InsertEvents, HasName, MinTimestamp, LastEnd;
      assert Added(st, b) == [] || Added(st, b)[0] in Added(st, b);
    }
  }

  /** The last of the inserted events has a row afterwards. */
  lemma {:induction false} LastIsInserted(db: Db, bucket: Bucket, es: seq<Event>)
    requires es != []
    ensures Holder(InsertAll(db, bucket, es).0, bucket.bid, es[|es| - 1])
    decreases |es|
  {
    var db1 := InsertRow(db, bucket.bid, es[0]);
    if |es| == 1 {
      assert db1.events[|db1.events| - 1] in db1.events;
      assert InsertAll(db, bucket, es).0 == InsertAll(db1, Extend(bucket, es[0]), []).0;
    } else {
      ExtendKeepsBid(bucket, es[0]);
      LastIsInserted(db1, Extend(bucket, es[0]), es[1..]);
    }
  }

  /** Some row of the bucket stores the event, under its id if it has one. */
  ghost predicate Holder(db: Db, bid: int, e: Event) {
    exists r ::
      && r in db.events && r.bucketrow == bid && RowIdentity(r) == IdentityOf(e)
      && (e.id.Some? ==> r.id == e.id.value)
  }

  /** Otherwise the bucket has a row afterwards for an event it did not hold. */
  lemma UnheldIsAdded(st: Store, b: BucketExport) returns (e: Event)
    requires HasName(st.db.buckets, b.name) && b.name in st.cache && AllSeen(EventsOf(b)) && !Holds(st, b)
    ensures e in EventsOf(b) && IdentityOf(e) !in StoredIdentities(st.db, st.cache[b.name].bid)
    ensures Holder(ImportBucket(st, b).0.db, st.cache[b.name].bid, e)
  {
    var es, added := EventsOf(b), Added(st, b);
    var x :| x in Identities(es) && x !in StoredIdentities(st.db, st.cache[b.name].bid);
    var d :| d in es && IdentityOf(d) == x;
    RecognisedIff(st, b.name, es, d);
    UnseenMembers(es, Existing(st, b.name, es));
    hide StoredIdentities, Unseen, Seen, MinTimestamp, LastEnd, Identities, HasName, InsertAll, Holder;
    assert d in added;
    e := added[|added| - 1];
    assert e in added;
    RecognisedIff(st, b.name, es, e);
    LastIsInserted(st.db, st.cache[b.name], added);
    assert ImportBucket(st, b).0 == InsertEvents(st, b.name, added).0;
  }

  lemma HeldIsStored(db: Db, bid: int, e: Event)
    requires Holder(db, bid, e)
    ensures IdentityOf(e) in StoredIdentities(db, bid)
  {}

  /** Importing into a bucket that exists, events with or without ids, durations
      not negative: nothing changes, ids and cached extent included, if and only if
      each event is stored with its start, its duration and its data. */
  lemma ImportChangesNothingIff(st: Store, b: BucketExport)
    requires HasName(st.db.buckets, b.name) && b.name in st.cache && NonNegative(EventsOf(b))
    ensures ImportBucket(st, b) == (st, Ok(())) <==>
            Identities(EventsOf(b)) <= StoredIdentities(st.db, st.cache[b.name].bid)
  {
    NonNegativeIsSeen(EventsOf(b));
    hide ImportBucket, AllSeen, NonNegative, StoredIdentities, Identities, HasName, Holder;
    if Holds(st, b) {
      ImportOfHeld(st, b);
    } else {
      var e := UnheldIsAdded(st, b);
      HeldIsStored(ImportBucket(st, b).0.db, st.cache[b.name].bid, e);
    }
    assert EventsOf(b) == [] ==> Identities(EventsOf(b)) == {} by { NoIdentities(); }
  }

  lemma NoIdentities()
    ensures Identities([]) == {}
  {}

  lemma {:induction false} ImportsOnlyGrow(st: Store, bs: seq<BucketExport>)
    requires Ready(st) && forall b :: b in bs ==> Identified(b)
    ensures var (st', r) := Imported(st, bs);
            r == Ok(()) && Ready(st') && |st'.db.events| >= |st.db.events|
    decreases |bs|
  {
    if bs != [] {
      ImportAppends(st, bs[0]);
      hide Ready, ImportBucket, NewRows, Identified, HasName;
      ImportsOnlyGrow(ImportBucket(st, bs[0]).0, bs[1..]);
    }
  }

  lemma {:induction false} ImportsHold(st: Store, bs: seq<BucketExport>, c: BucketExport)
    requires Ready(st) && (forall b :: b in bs ==> Identified(b)) && (Holds(st, c) || c in bs)
    ensures Ready(Imported(st, bs).0) && Holds(Imported(st, bs).0, c)
    decreases |bs|
  {
    hide Ready, ImportBucket, NewRows, Identified, HasName, Holds, Added;
    if bs != [] {
      ImportAppends(st, bs[0]);
      if Holds(st, c) { ImportKeepsHeld(st, bs[0], c); } else if c == bs[0] { ImportHolds(st, c); }
      assert bs == [bs[0]] + bs[1..];
      ImportsHold(ImportBucket(st, bs[0]).0, bs[1..], c);
    }
  }

  lemma {:induction false} ImportsOfHeld(st: Store, bs: seq<BucketExport>)
    requires Ready(st) && forall b :: b in bs ==> Identified(b) && Holds(st, b)
    ensures (forall b :: b in bs ==> AllSeen(EventsOf(b))) ==> Imported(st, bs) == (st, Ok(()))
    ensures !(forall b :: b in bs ==> AllSeen(EventsOf(b))) ==> |Imported(st, bs).0.db.events| > |st.db.events|
    decreases |bs|
  {
    hide Ready, ImportBucket, Identified, HasName, Holds, AllSeen, EventsOf, Added, NewRows;
    if bs != [] {
      assert bs == [bs[0]] + bs[1..];
      ImportOfHeld(st, bs[0]);
      ImportAppends(st, bs[0]);
      if AllSeen(EventsOf(bs[0])) {
        ImportsOfHeld(st, bs[1..]);
      } else {
        ImportsOnlyGrow(ImportBucket(st, bs[0]).0, bs[1..]);
      }
    }
  }

  /** Importing the same file twice, for events without ids: the second time
      nothing changes if and only if, bucket by bucket, every event touches the
      stretch that the duplicate query asks for. */
  lemma SecondImportIsNoOpIff(st: Store, bs: seq<BucketExport>)
    requires Ready(st) && forall b :: b in bs ==> Identified(b)
    ensures var st' := Imported(st, bs).0;
            Imported(st', bs) == (st', Ok(())) <==> forall b :: b in bs ==> AllSeen(EventsOf(b))
  {
    hide Ready, Holds, Imported, AllSeen, Identified;
    var st' := Imported(st, bs).0;
    ImportsOnlyGrow(st, bs);
    forall b | b in bs ensures Holds(st', b) { ImportsHold(st, bs, b); }
    ImportsOfHeld(st', bs);
  }

  /** With durations that are not negative the second import changes nothing. */
  lemma SecondImportIsNoOp(st: Store, bs: seq<BucketExport>)
    requires Ready(st) && forall b :: b in bs ==> Identified(b) && NonNegative(EventsOf(b))
    ensures var st' := Imported(st, bs).0; Imported(st', bs) == (st', Ok(()))
  {
    hide Ready, Imported, AllSeen, Identified, NonNegative;
    forall b | b in bs ensures AllSeen(EventsOf(b)) { NonNegativeIsSeen(EventsOf(b)); }
    SecondImportIsNoOpIff(st, bs);
  }

  /** Without that: an event that ends before the first one starts is added
      again by every import. */
  lemma BackwardEventImportsTwice(st: Store, name: string, info: BucketInfo)
    requires Ready(st)
    ensures var es := [Event(None, 0, 5, EMPTY_DATA), Event(None, 10, -20, EMPTY_DATA)];
            var bs := [BucketExport(name, info, Some(es))];
            var st' := Imported(st, bs).0;
            Imported(st', bs) != (st', Ok(()))
  {
    var e0, e1 := Event(None, 0, 5, EMPTY_DATA), Event(None, 10, -20, EMPTY_DATA);
    var es := [e0, e1];
    var bs := [BucketExport(name, info, Some(es))];
    assert es[1..] == [e1];
    assert MinTimestamp([e1]) == 10;
    assert MinTimestamp(es) == 0;
    assert es[1] == e1 && e1.End() == -10;
    assert e1 in es && !Seen(es, e1);
    assert !AllSeen(EventsOf(bs[0]));
    assert WithoutIds(es);
    hide Ready, Imported, AllSeen;
    SecondImportIsNoOpIff(st, bs);
  }
}
