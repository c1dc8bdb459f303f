/** What single operations of the store mean for its callers. */
module StoreFacts {
  import opened Events
  import opened StoreSpec
  import opened BucketCache
  import opened StoreRuns

  // ---- Queries ----

  ghost predicate NewestFirst(rows: seq<EventRow>) {
    forall i, j :: 0 <= i < j < |rows| ==> rows[i].start >= rows[j].start
  }

  lemma {:induction false} InsertDescPermutes(r: EventRow, rows: seq<EventRow>)
    ensures multiset(InsertDesc(r, rows)) == multiset(rows) + multiset{r}
  {
    if rows != [] && r.start < rows[0].start {
      InsertDescPermutes(r, rows[1..]);
      assert rows == [rows[0]] + rows[1..];
    }
  }

  lemma {:induction false} InsertDescKeepsOrder(r: EventRow, rows: seq<EventRow>)
    requires NewestFirst(rows)
    ensures NewestFirst(InsertDesc(r, rows))
  {
    if rows != [] && r.start < rows[0].start {
      InsertDescKeepsOrder(r, rows[1..]);
      var tail := InsertDesc(r, rows[1..]);
      InsertDescPermutes(r, rows[1..]);
      forall i | 0 <= i < |tail| ensures rows[0].start >= tail[i].start {
        assert tail[i] in multiset(tail);
        assert tail[i] == r || tail[i] in rows[1..];
      }
    }
  }

  lemma {:induction false} LatestFirstFacts(rows: seq<EventRow>)
    ensures NewestFirst(LatestFirst(rows)) && multiset(LatestFirst(rows)) == multiset(rows)
  {
    if rows != [] {
      LatestFirstFacts(rows[1..]);
      InsertDescPermutes(rows[0], LatestFirst(rows[1..]));
      InsertDescKeepsOrder(rows[0], LatestFirst(rows[1..]));
      assert rows == [rows[0]] + rows[1..];
    }
  }

  /** The row belongs to the bucket and touches the range, ends included. */
  predicate Asked(r: EventRow, bid: int, from: int, to: int) {
    r.bucketrow == bid && r.end >= from && r.start <= to
  }

  lemma {:induction false} InRangeCounts(rows: seq<EventRow>, bid: int, from: int, to: int, r: EventRow)
    ensures multiset(InRange(rows, bid, from, to))[r] == if Asked(r, bid, from, to) then multiset(rows)[r] else 0
  {
    if rows != [] {
      assert rows == [rows[0]] + rows[1..];
      InRangeCounts(rows[1..], bid, from, to, r);
    }
  }

  /** The rows that a query answers with, before they are turned into events. */
  function Ranked(st: Store, name: string, from: int, to: int): seq<EventRow>
    requires name in st.cache
  {
    LatestFirst(InRange(st.db.events, st.cache[name].bid, from, to))
  }

  /** A query answers with exactly the stored events of the bucket that touch the
      range, newest first; with a limit, with the newest of them. */
  lemma QueryIsNewestFirst(st: Store, name: string, from: int, to: int, limit: Option<nat>, clip: bool)
    requires name in st.cache && from <= to
    ensures var rows := Ranked(st, name, from, to);
            var es := GetEvents(st, name, Some(from), Some(to), limit, clip).value;
            && (forall r :: multiset(rows)[r] ==
                  if Asked(r, st.cache[name].bid, from, to) then multiset(st.db.events)[r] else 0)
            && NewestFirst(rows)
            && |es| == (if limit.Some? then Min(limit.value, |rows|) else |rows|)
            && forall i :: 0 <= i < |es| ==> es[i] == ToEvent(rows[i], from, to, clip)
  {
    var bid := st.cache[name].bid;
    LatestFirstFacts(InRange(st.db.events, bid, from, to));
    forall r ensures multiset(Ranked(st, name, from, to))[r] ==
                     if Asked(r, bid, from, to) then multiset(st.db.events)[r] else 0
    {
      InRangeCounts(st.db.events, bid, from, to, r);
    }
  }

  /** Clipping leaves what the event covers inside the range, under its id and
      data; without it the event comes back as it was stored. */
  lemma ClippedIsRestricted(r: EventRow, bid: int, from: int, to: int, t: int)
    requires Asked(r, bid, from, to) && r.start <= r.end && from <= to
    ensures var e := ToEvent(r, from, to, true);
            && e.id == Some(r.id) && e.data == r.data && e.duration >= 0
            && (e.Covers(t) <==> r.start <= t < r.end && from <= t < to)
    ensures var e := ToEvent(r, from, to, false);
            e.id == Some(r.id) && e.data == r.data && e.timestamp == r.start && e.End() == r.end
  {}

  // ---- Changes ----

  /** Deleting events takes exactly the bucket's events with those ids: an id of
      another bucket's event is no use here. */
  lemma DeletedExactly(st: Store, name: string, ids: seq<int>, r: EventRow)
    requires name in st.cache
    ensures var st' := DeleteEventsById(st, name, ids).0;
            st'.cache == st.cache && st'.db.buckets == st.db.buckets &&
            (r in st'.db.events <==> r in st.db.events && !(r.bucketrow == st.cache[name].bid && r.id in ids))
  {
    DeleteRowsMembers(st.db.events, st.cache[name].bid, ids);
  }

  function RowFor(bid: int, e: Event): EventRow
    requires e.id.Some?
  {
    EventRow(e.id.value, bid, e.timestamp, e.End(), e.data)
  }

  /** Inserted events come back in order, each as given but with the id of the
      row that now holds it; no stored row is lost if the given ids are new. */
  lemma {:induction false} InsertedAreStored(db: Db, bucket: Bucket, es: seq<Event>)
    requires Valid(db) && bucket.bid < db.nextBucket && AllFresh(db, bucket.bid, es)
    ensures var (db', _, inserted) := InsertAll(db, bucket, es);
            && |inserted| == |es| && Valid(db') && db'.buckets == db.buckets
            && (forall r :: r in db.events ==> r in db'.events)
            && (forall i :: 0 <= i < |es| ==>
                  && inserted[i].id.Some? && inserted[i] == es[i].(id := inserted[i].id)
                  && (es[i].id.Some? ==> inserted[i].id == es[i].id)
                  && RowFor(bucket.bid, inserted[i]) in db'.events)
    decreases |es|
  {
    if es != [] {
      var db1 := InsertRow(db, bucket.bid, es[0]);
      InsertRowFacts(db, bucket.bid, es[0]);
      FreshKeepsRows(db, bucket.bid, es[0]);
      ExtendKeepsBid(bucket, es[0]);
      assert db1.buckets == db.buckets && db1.nextBucket == db.nextBucket;
      hide Valid, InsertRow, Fresh, Extend;
      InsertedAreStored(db1, Extend(bucket, es[0]), es[1..]);
      var (db', _, rest) := InsertAll(db1, Extend(bucket, es[0]), es[1..]);
      var first := es[0].(id := Some(RowId(db, es[0])));
      assert InsertAll(db, bucket, es).2 == [first] + rest;
      assert RowFor(bucket.bid, first) == NewRow(db, bucket.bid, es[0]);
      forall i | 1 <= i < |es| ensures ([first] + rest)[i] == rest[i - 1] && es[i] == es[1..][i - 1] {}
    }
  }
}
