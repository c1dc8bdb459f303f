/** Importing an export into the store it was made from. Ids, starts and data are
    written as they are; durations pass through a number of seconds. */
module Reimport {
  import opened Events
  import opened StoreSpec
  import opened BucketCache
  import opened StoreRuns
  import opened ImportEndpoint
  import opened HeartbeatExamples
  import Seconds

  // ---- The file ----

  /** Events as a reader of the file gets them: `wire` is what becomes of a duration. */
  function OnWire(es: seq<Event>, wire: int -> int): (r: seq<Event>)
    ensures |r| == |es|
  {
    seq(|es|, i requires 0 <= i < |es| => es[i].(duration := wire(es[i].duration)))
  }

  /** What the export endpoint writes for one bucket; its events keep their ids. */
  function Exported(st: Store, name: string, wire: int -> int): BucketExport
    requires name in st.cache
  {
    BucketExport(name, st.cache[name].info, Some(OnWire(GetEvents(st, name, None, None, None, true).value, wire)))
  }

  function File(st: Store, names: seq<string>, wire: int -> int): (bs: seq<BucketExport>)
    requires forall name :: name in names ==> name in st.cache
    ensures |bs| == |names|
  {
    seq(|names|, i requires 0 <= i < |names| => Exported(st, names[i], wire))
  }

  /** What the file says about a row. */
  function Written(r: EventRow, wire: int -> int): Identity { Identity(r.start, wire(r.end - r.start), r.data) }

  /** Every row of the bucket is written as what some row of the bucket is. */
  ghost predicate ReadsBack(db: Db, bid: int, wire: int -> int) {
    forall r :: r in db.events && r.bucketrow == bid ==> Written(r, wire) in StoredIdentities(db, bid)
  }

  ghost predicate Forward(db: Db) { forall r :: r in db.events ==> r.start <= r.end }

  ghost predicate NeverNegative(wire: int -> int) { forall d :: d >= 0 ==> wire(d) >= 0 }

  ghost predicate DistinctNames(names: seq<string>) {
    forall i, j :: 0 <= i < j < |names| ==> names[i] != names[j]
  }

  /** The event is what the file says about `r`. */
  predicate Tells(e: Event, r: EventRow, bid: int, wire: int -> int) {
    r.bucketrow == bid && e.id == Some(r.id) && IdentityOf(e) == Written(r, wire)
  }

  /** The file tells of every row of the bucket and of nothing else. */
  lemma ExportTells(st: Store, name: string, wire: int -> int)
    requires name in st.cache && RowsInEra(st.db)
    ensures var bid, es := st.cache[name].bid, EventsOf(Exported(st, name, wire));
            && (forall e :: e in es ==> exists r :: r in st.db.events && Tells(e, r, bid, wire))
            && (forall r :: r in st.db.events && r.bucketrow == bid ==> exists e :: e in es && Tells(e, r, bid, wire))
  {
    var bid, es := st.cache[name].bid, EventsOf(Exported(st, name, wire));
    var rows := LatestFirst(InRange(st.db.events, bid, 0, I64_MAX));
    InRangeMembers(st.db.events, bid, 0, I64_MAX);
    LatestFirstMembers(InRange(st.db.events, bid, 0, I64_MAX));
    hide InRange, LatestFirst;
    forall i | 0 <= i < |es| ensures rows[i] in rows && Tells(es[i], rows[i], bid, wire) {
      assert rows[i] in rows;
    }
    forall r | r in st.db.events && r.bucketrow == bid ensures exists e :: e in es && Tells(e, r, bid, wire) {
      assert r in rows;
      var i :| 0 <= i < |rows| && rows[i] == r;
      assert es[i] in es;
    }
  }

  lemma ExportFacts(st: Store, name: string, wire: int -> int)
    requires name in st.cache && RowsInEra(st.db) && Forward(st.db) && NeverNegative(wire)
    ensures var b := Exported(st, name, wire);
            && NonNegative(EventsOf(b))
            && (Identities(EventsOf(b)) <= StoredIdentities(st.db, st.cache[name].bid) <==>
                ReadsBack(st.db, st.cache[name].bid, wire))
  {
    var bid, es := st.cache[name].bid, EventsOf(Exported(st, name, wire));
    ExportTells(st, name, wire);
    hide Exported, StoredIdentities, RowsInEra;
    forall e | e in es ensures e.duration >= 0 {
      var r :| r in st.db.events && Tells(e, r, bid, wire);
    }
    if Identities(es) <= StoredIdentities(st.db, bid) {
      forall r | r in st.db.events && r.bucketrow == bid ensures Written(r, wire) in StoredIdentities(st.db, bid) {
        var e :| e in es && Tells(e, r, bid, wire);
        assert IdentityOf(e) in Identities(es);
      }
    }
    if ReadsBack(st.db, bid, wire) {
      forall e | e in es ensures IdentityOf(e) in StoredIdentities(st.db, bid) {
        var r :| r in st.db.events && Tells(e, r, bid, wire);
      }
    }
  }

  /** One bucket of the file. */
  lemma ReimportOneIff(st: Store, name: string, wire: int -> int)
    requires Ready(st) && name in st.cache && RowsInEra(st.db) && Forward(st.db) && NeverNegative(wire)
    ensures ImportBucket(st, Exported(st, name, wire)) == (st, Ok(())) <==> ReadsBack(st.db, st.cache[name].bid, wire)
  {
    CachedIsNamed(st, name);
    ExportFacts(st, name, wire);
    hide ImportBucket, StoredIdentities, Identities, HasName, RowsInEra, Forward, NonNegative, ReadsBack;
    ImportChangesNothingIff(st, Exported(st, name, wire));
  }

  // ---- A row that was added stays ----

  ghost predicate Spared(id: int, es: seq<Event>) { forall e :: e in es ==> e.id.Some? && e.id.value != id }

  lemma {:induction false} InsertAllSpares(db: Db, bucket: Bucket, es: seq<Event>, r: EventRow)
    requires r in db.events && Spared(r.id, es)
    ensures r in InsertAll(db, bucket, es).0.events
    decreases |es|
  {
    if es != [] {
      assert es[0] in es;
      WithoutMembers(db.events, RowId(db, es[0]));
      InsertAllSpares(InsertRow(db, bucket.bid, es[0]), Extend(bucket, es[0]), es[1..], r);
    }
  }

  lemma {:induction false} InsertAllKeepsBuckets(db: Db, bucket: Bucket, es: seq<Event>)
    ensures InsertAll(db, bucket, es).0.buckets == db.buckets
    decreases |es|
  {
    if es != [] { InsertAllKeepsBuckets(InsertRow(db, bucket.bid, es[0]), Extend(bucket, es[0]), es[1..]); }
  }

  ghost predicate Known(st: Store, b: BucketExport) { HasName(st.db.buckets, b.name) && b.name in st.cache }

  lemma ImportIntoKnown(st: Store, b: BucketExport)
    requires Known(st, b)
    ensures var st' := ImportBucket(st, b).0;
            && st'.db.buckets == st.db.buckets && st'.cache.Keys == st.cache.Keys
            && forall r :: r in st.db.events && Spared(r.id, EventsOf(b)) ==> r in st'.db.events
  {
    var es := EventsOf(b);
    if es != [] {
      var added := Unseen(es, Existing(st, b.name, es));
      UnseenMembers(es, Existing(st, b.name, es));
      hide Unseen, Existing, HasName, InsertAll, GetEvents, MinTimestamp, LastEnd, Identities;
      InsertAllKeepsBuckets(st.db, st.cache[b.name], added);
      forall r | r in st.db.events && Spared(r.id, es) ensures r in ImportBucket(st, b).0.db.events {
        InsertAllSpares(st.db, st.cache[b.name], added, r);
      }
    }
  }

  lemma {:induction false} ImportsSpare(st: Store, bs: seq<BucketExport>, r: EventRow)
    requires r in st.db.events && forall b :: b in bs ==> Known(st, b) && Spared(r.id, EventsOf(b))
    ensures r in Imported(st, bs).0.db.events
    decreases |bs|
  {
    hide ImportBucket, Spared, EventsOf, HasName;
    if bs != [] {
      assert bs == [bs[0]] + bs[1..];
      ImportIntoKnown(st, bs[0]);
      forall b | b in bs[1..] ensures Known(ImportBucket(st, bs[0]).0, b) && Spared(r.id, EventsOf(b)) {
        assert b in bs;
      }
      ImportsSpare(ImportBucket(st, bs[0]).0, bs[1..], r);
    }
  }

  /** No other bucket's part of the file names the row's id. */
  lemma OtherExportSpares(st: Store, name: string, wire: int -> int, r: EventRow)
    requires Valid(st.db) && name in st.cache && RowsInEra(st.db)
    requires r in st.db.events && r.bucketrow != st.cache[name].bid
    ensures Spared(r.id, EventsOf(Exported(st, name, wire)))
  {
    ExportTells(st, name, wire);
    hide Exported, RowsInEra;
    forall e | e in EventsOf(Exported(st, name, wire)) ensures e.id.Some? && e.id.value != r.id {
      var q :| q in st.db.events && Tells(e, q, st.cache[name].bid, wire);
    }
  }

  // ---- The whole file ----

  /** A row whose duration reads back as another one is replaced, and stays so. */
  lemma LostRowStaysLost(st: Store, name: string, names: seq<string>, wire: int -> int)
    requires Ready(st) && RowsInEra(st.db) && Forward(st.db) && NeverNegative(wire)
    requires name in st.cache && (forall n :: n in names ==> n in st.cache && n != name)
    requires !ReadsBack(st.db, st.cache[name].bid, wire)
    ensures Imported(ImportBucket(st, Exported(st, name, wire)).0, File(st, names, wire)).0 != st
  {
    var b, bid := Exported(st, name, wire), st.cache[name].bid;
    ExportFacts(st, name, wire);
    ExportTells(st, name, wire);
    NonNegativeIsSeen(EventsOf(b));
    EntriesKeepBids(st);
    CachedIsNamed(st, name);
    var e := UnheldIsAdded(st, b);
    var q :| q in st.db.events && Tells(e, q, bid, wire);
    var st1 := ImportBucket(st, b).0;
    var r :| r in st1.db.events && r.bucketrow == bid && RowIdentity(r) == IdentityOf(e) && r.id == e.id.value;
    ImportIntoKnown(st, b);
    var bs := File(st, names, wire);
    forall c | c in bs ensures Known(st1, c) && Spared(r.id, EventsOf(c)) {
      CachedIsNamed(st, c.name);
      OtherExportSpares(st, c.name, wire, q);
    }
    ImportsSpare(st1, bs, r);
  }

  /** Importing an export into the store it was made from changes nothing, ids and
      cached extents included, if and only if each row's duration, as a reader of the
      file gets it, is that of a row of its bucket with the same start and data. */
  lemma {:induction false} ReimportIff(st: Store, names: seq<string>, wire: int -> int)
    requires Ready(st) && RowsInEra(st.db) && Forward(st.db) && NeverNegative(wire)
    requires DistinctNames(names) && forall name :: name in names ==> name in st.cache
    ensures Imported(st, File(st, names, wire)) == (st, Ok(())) <==>
            forall name :: name in names ==> ReadsBack(st.db, st.cache[name].bid, wire)
    decreases |names|
  {
    hide Ready, RowsInEra, Forward, NeverNegative, Exported, ImportBucket, ReadsBack, HasName;
    if names != [] {
      var name, rest := names[0], names[1..];
      assert names == [name] + rest;
      assert File(st, names, wire)[1..] == File(st, rest, wire);
      ReimportOneIff(st, name, wire);
      if ReadsBack(st.db, st.cache[name].bid, wire) {
        ReimportIff(st, rest, wire);
      } else {
        LostRowStaysLost(st, name, rest, wire);
      }
    }
  }

  /** No two rows of the bucket have the same start and data. */
  ghost predicate Distinguished(db: Db, bid: int) {
    forall q, r :: q in db.events && r in db.events && q.bucketrow == r.bucketrow == bid ==>
      q.start == r.start && q.data == r.data ==> q == r
  }

  /** So for rows told apart by start and data each duration has to come back. */
  lemma ReadsBackIff(db: Db, bid: int, wire: int -> int)
    requires Distinguished(db, bid)
    ensures ReadsBack(db, bid, wire) <==>
            forall r :: r in db.events && r.bucketrow == bid ==> wire(r.end - r.start) == r.end - r.start
  {
    forall r | r in db.events && r.bucketrow == bid && Written(r, wire) in StoredIdentities(db, bid)
      ensures wire(r.end - r.start) == r.end - r.start
    {
      var q :| q in db.events && q.bucketrow == bid && RowIdentity(q) == Written(r, wire);
    }
    forall r | r in db.events && r.bucketrow == bid && wire(r.end - r.start) == r.end - r.start
      ensures Written(r, wire) in StoredIdentities(db, bid)
    {
      assert RowIdentity(r) == Written(r, wire);
    }
  }

  // ---- Through doubles ----

  /** Durations below 2^52 ns pass through the file as they do through JSON. */
  ghost predicate AsJson(wire: int -> int) {
    NeverNegative(wire) && forall d :: 0 <= d < Seconds.TOP ==> wire(d) == Seconds.ReadBack(d)
  }

  predicate WholeSeconds(d: int) { 0 <= d < Seconds.TOP && d % Seconds.BILLION == 0 }

  /** A store whose events last whole seconds takes its own export without a change. */
  lemma WholeSecondsReimport(st: Store, names: seq<string>, wire: int -> int)
    requires Ready(st) && RowsInEra(st.db) && AsJson(wire)
    requires forall r :: r in st.db.events ==> WholeSeconds(r.end - r.start)
    requires DistinctNames(names) && forall name :: name in names ==> name in st.cache
    ensures Imported(st, File(st, names, wire)) == (st, Ok(()))
  {
    hide Ready, RowsInEra, Imported, Seconds.ReadBack;
    forall r | r in st.db.events ensures r.start <= r.end && Written(r, wire) == RowIdentity(r) {
      assert WholeSeconds(r.end - r.start);
      Seconds.WholeSecondsSurvive((r.end - r.start) / Seconds.BILLION);
    }
    ReimportIff(st, names, wire);
  }

  /** The answer of a store with one event to any query that reaches it. */
  lemma OneEventAnswer(end: int, from: Option<int>, to: Option<int>, clip: bool)
    requires 0 <= end <= I64_MAX
    requires from.Some? ==> from.value == 0
    requires to.Some? ==> 0 <= to.value && (clip ==> end <= to.value)
    ensures GetEvents(OneEvent("a", end, end, map[]).st, "a", from, to, None, clip) == Ok([Upto(end)])
  {
    var rows := OneEvent("a", end, end, map[]).st.db.events;
    var hi := if to.Some? then to.value else I64_MAX;
    assert rows[1..] == [] && InRange(rows, 1, 0, hi) == [rows[0]];
    assert LatestFirst([rows[0]]) == [rows[0]] by { assert [rows[0]][1..] == []; }
    assert ToEvents([rows[0]], 0, hi, clip) == [Upto(end)];
  }

  /** A file with a shorter version of the stored event, under its id. */
  lemma ShorterIsImported(end: int, shorter: int)
    requires 0 <= shorter < end <= I64_MAX
    ensures ImportBucket(OneEvent("a", end, end, map[]).st, BucketExport("a", INFO, Some([Upto(shorter)])))
         == (OneEvent("a", shorter, end, map[]).st, Ok(()))
  {
    var st, e := OneEvent("a", end, end, map[]).st, Upto(shorter);
    OneEventAnswer(end, Some(0), Some(shorter), false);
    assert st.db.buckets[0] in st.db.buckets && HasName(st.db.buckets, "a");
    assert MinTimestamp([e]) == 0 && LastEnd([e]) == shorter;
    assert IdentityOf(Upto(end)) != IdentityOf(e) && IdentityOf(e) !in Identities([Upto(end)]);
    assert [e][1..] == [] && Unseen([e], Identities([Upto(end)])) == [e];
    InsertOne(st, "a", e);
    assert st.db.events[1..] == [] && Without(st.db.events, 1) == [];
    assert InsertRow(st.db, 1, e) == OneEvent("a", shorter, end, map[]).st.db;
    assert Extend(st.cache["a"], e) == st.cache["a"] && st.cache["a" := st.cache["a"]] == st.cache;
    hide GetEvents, InsertEvents, Unseen, Identities, HasName, InsertRow;
  }

  lemma TooLateEnd(end: int, cachedEnd: int)
    requires end != cachedEnd
    ensures !Agrees(OneEvent("a", end, cachedEnd, map[]).st)
  {
    var st := OneEvent("a", end, cachedEnd, map[]).st;
    assert st.db.events == [EventRow(1, 1, 0, end, EMPTY_DATA)];
    assert "a" in st.cache && st.cache["a"].end == Some(cachedEnd);
  }

  lemma OneEventReimported(end: int, wire: int -> int)
    requires 0 <= wire(end) < end <= I64_MAX
    ensures Imported(OneEvent("a", end, end, map[]).st, File(OneEvent("a", end, end, map[]).st, ["a"], wire)).0
         == OneEvent("a", wire(end), end, map[]).st
  {
    var st, b := OneEvent("a", end, end, map[]).st, BucketExport("a", INFO, Some([Upto(wire(end))]));
    OneEventAnswer(end, None, None, true);
    ShorterIsImported(end, wire(end));
    hide ImportBucket, GetEvents;
    assert OnWire([Upto(end)], wire) == [Upto(wire(end))];
    assert File(st, ["a"], wire) == [b];
    assert [b][1..] == [] && Imported(st, [b]).0 == Imported(ImportBucket(st, b).0, []).0;
  }

  const LENGTH := 1_001_000_000

  /** One heartbeat of 1.001 seconds into a new bucket. The export, imported into
      the same store, replaces its row by one that is a nanosecond shorter, and the
      cached end is then too late. */
  lemma RoundingCutsEvent(wire: int -> int)
    requires AsJson(wire)
    ensures var s := Step(Step(EMPTY, Create("a", INFO, None)).0, Beat("a", Event(None, 0, LENGTH, EMPTY_DATA), 10)).0;
            && Exact(s) && s.st.db.events == [EventRow(1, 1, 0, LENGTH, EMPTY_DATA)]
            && "a" in s.st.cache
            && var st' := Imported(s.st, File(s.st, ["a"], wire)).0;
               st'.db.events == [EventRow(1, 1, 0, LENGTH - 1, EMPTY_DATA)] && !Agrees(st')
  {
    hide Agrees, RowsInEra, Imported, File, Step, Seconds.ReadBack;
    FirstBeat(LENGTH);
    OneEventAgrees("a", LENGTH, map[]);
    Seconds.OnePointOhOhOne();
    OneEventReimported(LENGTH, wire);
    TooLateEnd(LENGTH - 1, LENGTH);
  }
}
