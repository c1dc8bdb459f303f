/** The rows of one bucket, and which is the newest, as commands change the table. */
module NewestRows {
  import opened Events
  import opened StoreSpec
  import opened BucketCache
  import opened StoreRuns

  /** The rows whose ids are not among `ids`. */
  function Sparing(rows: seq<EventRow>, ids: set<int>): seq<EventRow> {
    if rows == [] then []
    else if rows[0].id in ids then Sparing(rows[1..], ids)
    else [rows[0]] + Sparing(rows[1..], ids)
  }

  /** The ids that events ask to be stored under. */
  function AskedIds(es: seq<Event>): set<int> { set e | e in es && e.id.Some? :: e.id.value }

  // ---- The rows of one bucket ----

  lemma {:induction false} InBucketConcat(a: seq<EventRow>, b: seq<EventRow>, bid: int)
    ensures InBucket(a + b, bid) == InBucket(a, bid) + InBucket(b, bid)
  {
    if a == [] {
      assert a + b == b;
    } else {
      assert (a + b)[1..] == a[1..] + b;
      InBucketConcat(a[1..], b, bid);
      var h := if a[0].bucketrow == bid then [a[0]] else [];
      assert InBucket(a + b, bid) == h + InBucket(a[1..] + b, bid);
    }
  }

  lemma {:induction false} InBucketMembers(rows: seq<EventRow>, bid: int)
    ensures forall r :: r in InBucket(rows, bid) <==> r in rows && r.bucketrow == bid
  {
    if rows != [] {
      assert rows == [rows[0]] + rows[1..];
      InBucketMembers(rows[1..], bid);
    }
  }

  lemma {:induction false} InBucketWithout(rows: seq<EventRow>, id: int, bid: int)
    ensures InBucket(Without(rows, id), bid) == Sparing(InBucket(rows, bid), {id})
  {
    if rows != [] {
      InBucketWithout(rows[1..], id, bid);
      assert [] + Without(rows[1..], id) == Without(rows[1..], id);
      InBucketCons(rows[0], Without(rows[1..], id), bid);
      InBucketCons(rows[0], rows[1..], bid);
      assert rows == [rows[0]] + rows[1..];
      SparingCons(rows[0], InBucket(rows[1..], bid), {id});
    }
  }

  lemma InBucketCons(r: EventRow, rows: seq<EventRow>, bid: int)
    ensures InBucket([r] + rows, bid) == if r.bucketrow == bid then [r] + InBucket(rows, bid) else InBucket(rows, bid)
  {
    assert ([r] + rows)[1..] == rows;
    assert [] + InBucket(rows, bid) == InBucket(rows, bid);
  }

  lemma SparingCons(r: EventRow, rows: seq<EventRow>, ids: set<int>)
    ensures Sparing([r] + rows, ids) == if r.id in ids then Sparing(rows, ids) else [r] + Sparing(rows, ids)
  {
    assert ([r] + rows)[1..] == rows;
  }

  lemma {:induction false} SparingAbsent(rows: seq<EventRow>, ids: set<int>)
    requires forall r :: r in rows ==> r.id !in ids
    ensures Sparing(rows, ids) == rows
  {
    if rows != [] {
      assert rows == [rows[0]] + rows[1..];
      SparingAbsent(rows[1..], ids);
    }
  }

  lemma {:induction false} SparingTwice(rows: seq<EventRow>, a: set<int>, b: set<int>)
    ensures Sparing(Sparing(rows, a), b) == Sparing(rows, a + b)
  {
    if rows != [] {
      SparingTwice(rows[1..], a, b);
      SparingCons(rows[0], Sparing(rows[1..], a), b);
    }
  }

  lemma {:induction false} SparingMembers(rows: seq<EventRow>, ids: set<int>)
    ensures forall r :: r in Sparing(rows, ids) <==> r in rows && r.id !in ids
  {
    if rows != [] {
      assert rows == [rows[0]] + rows[1..];
      SparingMembers(rows[1..], ids);
    }
  }

  /** An insert takes the row of that id from whatever bucket has it. */
  lemma InsertRowInBucket(db: Db, bid: int, e: Event, other: int)
    ensures InBucket(InsertRow(db, bid, e).events, other)
         == Sparing(InBucket(db.events, other), {RowId(db, e)}) + if other == bid then [NewRow(db, bid, e)] else []
  {
    InBucketWithout(db.events, RowId(db, e), other);
    InBucketConcat(Without(db.events, RowId(db, e)), [NewRow(db, bid, e)], other);
    assert [NewRow(db, bid, e)][1..] == [];
  }

  /** A row that gets an id of its own takes none. */
  lemma SparingAsked(db: Db, e: Event, bid: int)
    requires Valid(db)
    ensures Sparing(InBucket(db.events, bid), {RowId(db, e)}) == Sparing(InBucket(db.events, bid), AskedIds([e]))
  {
    InBucketMembers(db.events, bid);
    hide InBucket;
    if e.id.None? {
      SparingAbsent(InBucket(db.events, bid), {RowId(db, e)});
      SparingAbsent(InBucket(db.events, bid), AskedIds([e]));
    } else {
      assert AskedIds([e]) == {e.id.value};
    }
  }

  lemma {:induction false} InsertAllInBucket(db: Db, bucket: Bucket, es: seq<Event>, other: int)
    requires Valid(db) && bucket.bid < db.nextBucket && other != bucket.bid
    ensures InBucket(InsertAll(db, bucket, es).0.events, other) == Sparing(InBucket(db.events, other), AskedIds(es))
    decreases |es|
  {
    if es == [] {
      SparingAbsent(InBucket(db.events, other), {});
      assert AskedIds(es) == {};
    } else {
      InsertRowFacts(db, bucket.bid, es[0]);
      hide InsertRow, Valid, InBucket, Sparing;
      InsertRowInBucket(db, bucket.bid, es[0], other);
      SparingAsked(db, es[0], other);
      NextBucketStays(db, bucket.bid, es[0]);
      InsertAllInBucket(InsertRow(db, bucket.bid, es[0]), Extend(bucket, es[0]), es[1..], other);
      SparingTwice(InBucket(db.events, other), AskedIds([es[0]]), AskedIds(es[1..]));
      assert es == [es[0]] + es[1..];
      assert AskedIds(es) == AskedIds([es[0]]) + AskedIds(es[1..]);
      var rows := Sparing(InBucket(db.events, other), AskedIds([es[0]]));
      assert rows + [] == rows;
    }
  }

  lemma NextBucketStays(db: Db, bid: int, e: Event)
    ensures InsertRow(db, bid, e).nextBucket == db.nextBucket
  {}

  lemma {:induction false} UpdateRowInBucket(rows: seq<EventRow>, bid: int, id: int, e: Event, other: int)
    ensures InBucket(UpdateRow(rows, bid, id, e), other) == UpdateRow(InBucket(rows, other), bid, id, e)
    ensures other != bid ==> InBucket(UpdateRow(rows, bid, id, e), other) == InBucket(rows, other)
  {
    if rows != [] {
      UpdateRowInBucket(rows[1..], bid, id, e, other);
      assert UpdateRow(rows, bid, id, e)[1..] == UpdateRow(rows[1..], bid, id, e);
      if rows[0].bucketrow == other {
        assert InBucket(rows, other) == [rows[0]] + InBucket(rows[1..], other);
      }
    }
  }

  lemma {:induction false} DropRowsInBucket(rows: seq<EventRow>, bid: int, other: int)
    requires other != bid
    ensures InBucket(DropRows(rows, bid), other) == InBucket(rows, other)
  {
    if rows != [] {
      DropRowsInBucket(rows[1..], bid, other);
      assert [] + DropRows(rows[1..], bid) == DropRows(rows[1..], bid);
      InBucketCons(rows[0], rows[1..], other);
      assert rows == [rows[0]] + rows[1..];
      InBucketCons(rows[0], DropRows(rows[1..], bid), other);
    }
  }

  lemma {:induction false} DeleteRowInBucket(rows: seq<EventRow>, bid: int, id: int, other: int)
    ensures InBucket(DeleteRow(rows, bid, id), other)
         == if other == bid then Sparing(InBucket(rows, bid), {id}) else InBucket(rows, other)
  {
    if rows != [] {
      DeleteRowInBucket(rows[1..], bid, id, other);
      assert [] + DeleteRow(rows[1..], bid, id) == DeleteRow(rows[1..], bid, id);
      InBucketCons(rows[0], rows[1..], other);
      assert rows == [rows[0]] + rows[1..];
      InBucketCons(rows[0], DeleteRow(rows[1..], bid, id), other);
      SparingCons(rows[0], InBucket(rows[1..], bid), {id});
    }
  }

  lemma {:induction false} DeleteRowsInBucket(rows: seq<EventRow>, bid: int, ids: seq<int>, other: int)
    ensures InBucket(DeleteRows(rows, bid, ids), other)
         == if other == bid then Sparing(InBucket(rows, bid), set i | i in ids) else InBucket(rows, other)
    decreases |ids|
  {
    hide InBucket, Sparing, DeleteRow;
    if ids == [] {
      assert (set i | i in ids) == {};
      SparingAbsent(InBucket(rows, bid), {});
    } else {
      DeleteRowInBucket(rows, bid, ids[0], other);
      DeleteRowsInBucket(DeleteRow(rows, bid, ids[0]), bid, ids[1..], other);
      SparingTwice(InBucket(rows, bid), {ids[0]}, set i | i in ids[1..]);
      assert ids == [ids[0]] + ids[1..];
      assert (set i | i in ids) == {ids[0]} + set i | i in ids[1..];
    }
  }

  // ---- The newest row ----

  lemma {:induction false} LatestAppend(rows: seq<EventRow>, r: EventRow)
    ensures Latest(rows + [r]) == if rows == [] || r.start > Latest(rows).start then r else Latest(rows)
  {
    if rows != [] {
      LatestAppend(rows[1..], r);
      assert (rows + [r])[1..] == rows[1..] + [r];
    }
  }

  /** Rows with equal starts elect the same position. */
  lemma {:induction false} LatestPosition(a: seq<EventRow>, b: seq<EventRow>) returns (i: nat)
    requires a != [] && |a| == |b| && forall k :: 0 <= k < |a| ==> a[k].start == b[k].start
    ensures i < |a| && Latest(a) == a[i] && Latest(b) == b[i]
  {
    i := 0;
    if |a| > 1 {
      var j := LatestPosition(a[1..], b[1..]);
      if a[0].start < a[1..][j].start { i := j + 1; }
    }
  }

  /** Taking other rows away leaves the newest. */
  lemma {:induction false} LatestSpared(rows: seq<EventRow>, ids: set<int>)
    requires rows != [] && Latest(rows).id !in ids
    ensures Sparing(rows, ids) != [] && Latest(Sparing(rows, ids)) == Latest(rows)
  {
    SparingCons(rows[0], rows[1..], ids);
    assert rows == [rows[0]] + rows[1..];
    if |rows| > 1 {
      var rest := Sparing(rows[1..], ids);
      if Latest(rows) == rows[0] {
        SparingMembers(rows[1..], ids);
        LatestIsFirst(rows);
        assert rest != [] ==> Latest(rest) in rest by { if rest != [] { LatestIsFirst(rest); } }
        assert ([rows[0]] + rest)[1..] == rest;
      } else {
        LatestSpared(rows[1..], ids);
        assert ([rows[0]] + rest)[1..] == rest;
      }
    } else {
      assert Sparing(rows[1..], ids) == [];
    }
  }

  /** Taking it away leaves another one, or none. */
  lemma LatestTaken(rows: seq<EventRow>, ids: set<int>)
    requires rows != [] && Latest(rows).id in ids
    ensures Sparing(rows, ids) == [] || Latest(Sparing(rows, ids)).id != Latest(rows).id
  {
    SparingMembers(rows, ids);
    if Sparing(rows, ids) != [] { LatestIsFirst(Sparing(rows, ids)); }
  }

  /** Rewriting the newest row under the same start leaves it the newest. */
  lemma LatestRewritten(rows: seq<EventRow>, bid: int, e: Event)
    requires rows != [] && (forall r :: r in rows ==> r.bucketrow == bid)
    requires forall r, q :: r in rows && q in rows && r.id == q.id ==> r == q
    requires Latest(rows).start == e.timestamp
    ensures var id := Latest(rows).id;
            Latest(UpdateRow(rows, bid, id, e)) == EventRow(id, bid, e.timestamp, e.End(), e.data)
  {
    LatestIsFirst(rows);
    var id := Latest(rows).id;
    var rows' := UpdateRow(rows, bid, id, e);
    assert forall i :: 0 <= i < |rows| ==> rows[i] in rows;
    var i := LatestPosition(rows, rows');
  }

  lemma UniqueIdsInBucket(db: Db, bid: int)
    requires Valid(db)
    ensures forall r, q :: r in InBucket(db.events, bid) && q in InBucket(db.events, bid) && r.id == q.id ==> r == q
    ensures forall r :: r in InBucket(db.events, bid) ==> r.bucketrow == bid && r in db.events
  {
    InBucketMembers(db.events, bid);
    hide InBucket;
  }

  lemma NewestIsRow(db: Db, bid: int)
    requires InBucket(db.events, bid) != []
    ensures var r := Latest(InBucket(db.events, bid));
            r in db.events && r.bucketrow == bid && HasRow(db.events, bid, r.id)
  {
    InBucketMembers(db.events, bid);
    LatestIsFirst(InBucket(db.events, bid));
  }

  // ---- Re-reading it ----

  lemma SameRowsSameReread(st: Store, st': Store, name: string, name': string)
    requires name in st.cache && name' in st'.cache && RowsInEra(st.db) && RowsInEra(st'.db)
    requires InBucket(st.db.events, st.cache[name].bid) == InBucket(st'.db.events, st'.cache[name'].bid)
    ensures Reread(st', name') == Reread(st, name)
  {
    hide Reread, InBucket;
    RereadIsLatest(st, name);
    RereadIsLatest(st', name');
  }

  /** When rows of the bucket are taken away, re-reading gives the same event if and
      only if its row is not among them. */
  lemma SparedReread(st: Store, st': Store, name: string, ids: set<int>)
    requires name in st.cache && name in st'.cache && RowsInEra(st.db) && RowsInEra(st'.db) && Reread(st, name).Some?
    requires InBucket(st'.db.events, st'.cache[name].bid) == Sparing(InBucket(st.db.events, st.cache[name].bid), ids)
    ensures Reread(st, name).value.id.Some?
    ensures Reread(st', name) == Reread(st, name) <==> Reread(st, name).value.id.value !in ids
  {
    hide Reread, InBucket, Latest, Sparing;
    RereadIsLatest(st, name);
    RereadIsLatest(st', name);
    var rows := InBucket(st.db.events, st.cache[name].bid);
    if Latest(rows).id in ids { LatestTaken(rows, ids); } else { LatestSpared(rows, ids); }
  }
}
