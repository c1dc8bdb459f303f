/** The event store as an object. Its methods do, statement by statement, what
    the functions of StoreSpec say. */
module Datastore {
  import opened Events
  import opened StoreSpec
  import HeartbeatRule

  ghost predicate KeysMatch(cache: map<string, Bucket>) {
    forall name :: name in cache ==> cache[name].id == name
  }

  lemma {:induction false} InsertAllKeepsName(db: Db, bucket: Bucket, es: seq<Event>)
    ensures InsertAll(db, bucket, es).1.id == bucket.id && InsertAll(db, bucket, es).1.bid == bucket.bid
    ensures InsertAll(db, bucket, es).1.info == bucket.info
    decreases |es|
  {
    if es != [] { InsertAllKeepsName(InsertRow(db, bucket.bid, es[0]), Extend(bucket, es[0]), es[1..]); }
  }

  lemma InsertKeepsKeys(st: Store, name: string, es: seq<Event>)
    requires KeysMatch(st.cache)
    ensures KeysMatch(InsertEvents(st, name, es).0.cache)
  {
    if name in st.cache { InsertAllKeepsName(st.db, st.cache[name], es); }
  }

  /** One open datastore: the database and the bucket cache. */
  class DatastoreInstance {
    var db: Db
    var cache: map<string, Bucket>

    function State(): Store
      reads this
    {
      Store(db, cache)
    }

    constructor (db: Db)
      ensures State() == Store(db, StoredBuckets(db.buckets, db.events))
    {
      this.db, this.cache := db, map[];
      new;
      GetStoredBuckets();
    }

    /** Refreshes the cache; names that are gone stay in it. */
    method GetStoredBuckets()
      modifies this`cache
      ensures cache == old(cache) + StoredBuckets(db.buckets, db.events)
    {
      for i := 0 to |db.buckets|
        invariant cache == old(cache) + StoredBuckets(db.buckets[..i], db.events)
      {
        var b := db.buckets[i];
        assert db.buckets[..i + 1][..i] == db.buckets[..i];
        cache := cache[b.name := Stored(b, db.events)];
      }
      assert db.buckets[..|db.buckets|] == db.buckets;
    }

    method GetBucket(name: string) returns (r: Result<Bucket>)
      ensures r == if name in cache then Ok(cache[name]) else Err(NoSuchBucket(name))
    {
      r := if name in cache then Ok(cache[name]) else Err(NoSuchBucket(name));
    }

    method CreateBucket(name: string, info: BucketInfo, events: Option<seq<Event>>) returns (r: Result<()>)
      requires KeysMatch(cache)
      modifies this
      ensures (State(), r) == StoreSpec.CreateBucket(old(State()), name, info, events)
    {
      if HasName(db.buckets, name) {
        return Err(BucketAlreadyExists(name));
      }
      var bid := db.nextBucket;
      db := db.(buckets := db.buckets + [BucketRow(bid, name, info)], nextBucket := bid + 1);
      cache := cache[name := Bucket(bid, name, info, None, None)];
      if events.Some? {
        var _ := InsertEvents(name, events.value);
      }
      return Ok(());
    }

    method DeleteBucket(name: string) returns (r: Result<()>)
      modifies this
      ensures (State(), r) == StoreSpec.DeleteBucket(old(State()), name)
    {
      var bucket := GetBucket(name);
      if bucket.Err? {
        return Err(bucket.error);
      }
      var bid := bucket.value.bid;
      db := db.(events := DropRows(db.events, bid));
      db := db.(buckets := DropBucket(db.buckets, bid));
      cache := cache - {name};
      return Ok(());
    }

    method RenameBucket(from: string, to: string) returns (r: Result<()>)
      modifies this
      ensures (State(), r) == StoreSpec.RenameBucket(old(State()), from, to)
    {
      if from !in cache {
        return Err(NoSuchBucket(from));
      }
      if to in cache {
        return Err(BucketAlreadyExists(to));
      }
      if !HasName(db.buckets, from) {
        return Err(NoSuchBucket(from));
      }
      if HasName(db.buckets, to) {
        return Err(InternalError);
      }
      db := db.(buckets := Renamed(db.buckets, from, to));
      var bucket := cache[from];
      cache := cache - {from};
      cache := cache[to := bucket.(id := to)];
      return Ok(());
    }

    /** Grows the extent of `bucket`, and of its cache entry when that changed. */
    method UpdateEndtime(bucket: Bucket, e: Event) returns (bucket': Bucket)
      modifies this`cache
      ensures bucket' == Extend(bucket, e)
      ensures cache == if bucket' == bucket then old(cache) else old(cache)[bucket.id := bucket']
    {
      var update := false;
      bucket' := bucket;
      if bucket'.start.None? {
        bucket', update := bucket'.(start := Some(e.timestamp)), true;
      } else if bucket'.start.value > e.timestamp {
        bucket', update := bucket'.(start := Some(e.timestamp)), true;
      }
      if bucket'.end.None? {
        bucket', update := bucket'.(end := Some(e.End())), true;
      } else if bucket'.end.value < e.End() {
        bucket', update := bucket'.(end := Some(e.End())), true;
      }
      if update {
        cache := cache[bucket'.id := bucket'];
      }
    }

    method InsertEvents(name: string, es: seq<Event>) returns (r: Result<seq<Event>>)
      requires KeysMatch(cache)
      modifies this
      ensures (State(), r) == StoreSpec.InsertEvents(old(State()), name, es)
    {
      var found := GetBucket(name);
      if found.Err? {
        return Err(found.error);
      }
      var bucket := found.value;
      var inserted: seq<Event> := [];
      ghost var todo := InsertAll(db, bucket, es);
      ghost var whole := todo;
      assert es[0..] == es;
      for i := 0 to |es|
        invariant bucket.id == name && cache == old(cache)[name := bucket]
        invariant todo == InsertAll(db, bucket, es[i..])
        invariant todo.0 == whole.0 && todo.1 == whole.1 && inserted + todo.2 == whole.2
      {
        var e := es[i];
        assert es[i..][0] == e && es[i..][1..] == es[i + 1..];
        var id := RowId(db, e);
        ghost var next := InsertAll(InsertRow(db, bucket.bid, e), Extend(bucket, e), es[i + 1..]);
        db := InsertRow(db, bucket.bid, e);
        bucket := UpdateEndtime(bucket, e);
        inserted := inserted + [e.(id := Some(id))];
        todo := next;
      }
      assert es[|es|..] == [];
      assert inserted == whole.2;
      return Ok(inserted);
    }

    method DeleteEventsById(name: string, ids: seq<int>) returns (r: Result<()>)
      modifies this`db
      ensures (State(), r) == StoreSpec.DeleteEventsById(old(State()), name, ids)
    {
      var found := GetBucket(name);
      if found.Err? {
        return Err(found.error);
      }
      var bid := found.value.bid;
      ghost var whole := DeleteRows(db.events, bid, ids);
      assert ids[0..] == ids;
      for i := 0 to |ids|
        invariant db == old(db).(events := db.events)
        invariant DeleteRows(db.events, bid, ids[i..]) == whole
      {
        assert ids[i..][0] == ids[i] && ids[i..][1..] == ids[i + 1..];
        db := db.(events := DeleteRow(db.events, bid, ids[i]));
      }
      assert ids[|ids|..] == [];
      return Ok(());
    }

    method ReplaceLastEvent(name: string, id: int, e: Event) returns (r: Result<()>)
      requires KeysMatch(cache)
      modifies this
      ensures (State(), r) == StoreSpec.ReplaceLastEvent(old(State()), name, id, e)
    {
      var found := GetBucket(name);
      if found.Err? {
        return Err(found.error);
      }
      var bucket := found.value;
      if !HasRow(db.events, bucket.bid, id) {
        return Err(InternalError);
      }
      db := db.(events := UpdateRow(db.events, bucket.bid, id, e));
      var bucket' := UpdateEndtime(bucket, e);
      assert cache == old(cache)[name := bucket'];
      return Ok(());
    }

    method GetEvents(name: string, from: Option<int>, to: Option<int>, limit: Option<nat>, clip: bool)
      returns (r: Result<seq<Event>>)
      ensures r == StoreSpec.GetEvents(State(), name, from, to, limit, clip)
    {
      hide InRange, LatestFirst, Limited, ToEvent;
      var found := GetBucket(name);
      if found.Err? {
        return Err(found.error);
      }
      var lo := if from.Some? then from.value else 0;
      var hi := if to.Some? then to.value else I64_MAX;
      if lo > hi {
        return Ok([]);
      }
      var rows := Limited(LatestFirst(InRange(db.events, found.value.bid, lo, hi)), limit);
      var list: seq<Event> := [];
      for i := 0 to |rows|
        invariant list == ToEvents(rows[..i], lo, hi, clip)
      {
        list := list + [ToEvent(rows[i], lo, hi, clip)];
      }
      assert rows[..|rows|] == rows;
      return Ok(list);
    }

    /** `last` holds the newest event per bucket; its entry is taken out first
        and put back only by a heartbeat that succeeds with a predecessor. */
    method Heartbeat(name: string, heartbeat: Event, pulsetime: int, last: LastHeartbeats)
      returns (last': LastHeartbeats, r: Result<Event>)
      requires KeysMatch(cache)
      modifies this
      ensures (State(), last', r) == HeartbeatStep(old(State()), last, name, heartbeat, pulsetime)
    {
      last' := last;
      var found := GetBucket(name);
      if found.Err? {
        return last', Err(found.error);
      }
      if name !in last' {
        last' := last'[name := None];
      }
      var cached := last'[name];
      last' := last' - {name};
      assert last' == last - {name};
      var prev: Event;
      if cached.Some? {
        prev := cached.value;
      } else {
        var newest := GetEvents(name, None, None, Some(1), true);
        if newest.value == [] {
          var inserted := InsertEvents(name, [heartbeat]);
          return last', Ok(inserted.value[|inserted.value| - 1]);
        }
        prev := newest.value[|newest.value| - 1];
      }
      var merged := HeartbeatRule.Merge(prev, heartbeat, pulsetime);
      var event: Event;
      if merged.Some? {
        event := merged.value;
        if prev.id.None? {
          return last', Err(InternalError);
        }
        var replaced := ReplaceLastEvent(name, prev.id.value, event);
        if replaced.Err? {
          return last', Err(replaced.error);
        }
        event := event.(id := prev.id);
      } else {
        var inserted := InsertEvents(name, [heartbeat]);
        event := inserted.value[|inserted.value| - 1];
      }
      last' := last'[name := Some(event)];
      return last', Ok(event);
    }
  }
}
