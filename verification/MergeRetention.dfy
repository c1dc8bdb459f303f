/** What an import keeps: which versions are afterwards stored or archived. */
module MergeRetention {
  import opened Events
  import opened Conflict
  import opened Text
  import opened Merge

  // ---- No version is lost ----

  /** The row that goes to the trash when `n` meets the index. */
  function Loser(local: map<string, Row>, n: Row): seq<Archived> {
    var key := Key(n);
    if key !in local || local[key].v.Same(n.v) then []
    else if n.v.Newer(local[key].v) then
      [Archived(key, local[key], n.v.rev, if n.v.deleted != 0 then DeletedByRemote else OverwrittenByRemote)]
    else [Archived(key, n, local[key].v.rev, StaleRemoteIgnored)]
  }

  function Losers(local: map<string, Row>, batch: seq<Row>): seq<Archived> {
    if batch == [] then [] else Loser(local, batch[0]) + Losers(local, batch[1..])
  }

  lemma ArchivesLoser(local: map<string, Row>, rows: Rows, out: Outcome, n: Row)
    ensures ImportOne(local, rows, out, n).1.archived == out.archived + Loser(local, n)
  {
    hide IncomingNewer, LogicalKey;
  }

  lemma {:induction false} ImportArchivesLosers(local: map<string, Row>, rows: Rows, out: Outcome, batch: seq<Row>)
    ensures ImportRest(local, rows, out, batch).1.archived == out.archived + Losers(local, batch)
    decreases |batch|
  {
    hide ImportOne, Loser;
    if batch != [] {
      var (rows', out') := ImportOne(local, rows, out, batch[0]);
      ArchivesLoser(local, rows, out, batch[0]);
      ImportArchivesLosers(local, rows', out', batch[1..]);
    }
  }

  lemma {:induction false} LosersMembers(local: map<string, Row>, batch: seq<Row>, a: Archived)
    ensures a in Losers(local, batch) <==> exists n :: n in batch && a in Loser(local, n)
  {
    if batch != [] {
      LosersMembers(local, batch[1..], a);
      assert batch == [batch[0]] + batch[1..];
    }
  }

  function Actions(records: seq<(string, Action)>): (r: seq<Action>) {
    seq(|records|, i requires 0 <= i < |records| => records[i].1)
  }

  /** The counters count the records, one by one. */
  predicate Tallied(out: Outcome) {
    var counts := multiset(Actions(out.records));
    && out.created == counts[Created] && out.updated == counts[Updated] && out.deleted == counts[Deleted]
    && out.ignoredStale == counts[IgnoredStale] && out.ignoredDup == counts[IgnoredDup]
    && |out.archived| == out.updated + out.deleted + out.ignoredStale
    && |out.records| == out.created + out.updated + out.deleted + out.ignoredStale + out.ignoredDup
  }

  function Keys(batch: seq<Row>): seq<string> {
    if batch == [] then [] else [Key(batch[0])] + Keys(batch[1..])
  }

  function RecordKeys(records: seq<(string, Action)>): (r: seq<string>) {
    seq(|records|, i requires 0 <= i < |records| => records[i].0)
  }

  lemma NothingDone()
    ensures Tallied(NOTHING_DONE) && RecordKeys(NOTHING_DONE.records) == []
  {
    assert Actions([]) == [];
  }

  /** One more record, counted, and archived unless it is a creation or a duplicate. */
  ghost predicate OneMore(out: Outcome, out': Outcome, record: (string, Action)) {
    && out'.records == out.records + [record]
    && out'.created == out.created + (if record.1 == Created then 1 else 0)
    && out'.updated == out.updated + (if record.1 == Updated then 1 else 0)
    && out'.deleted == out.deleted + (if record.1 == Deleted then 1 else 0)
    && out'.ignoredStale == out.ignoredStale + (if record.1 == IgnoredStale then 1 else 0)
    && out'.ignoredDup == out.ignoredDup + (if record.1 == IgnoredDup then 1 else 0)
    && |out'.archived| == |out.archived| + (if record.1 in {Created, IgnoredDup} then 0 else 1)
  }

  lemma ImportsOneMore(local: map<string, Row>, rows: Rows, out: Outcome, n: Row) returns (record: (string, Action))
    ensures OneMore(out, ImportOne(local, rows, out, n).1, record)
  {
    hide IncomingNewer, LogicalKey, UpdateWhere;
    var out' := ImportOne(local, rows, out, n).1;
    record := out'.records[|out.records|];
    assert out'.records == out.records + [record];
  }

  lemma TalliesOne(out: Outcome, out': Outcome, record: (string, Action))
    requires Tallied(out) && OneMore(out, out', record)
    ensures Tallied(out')
  {
    hide Actions;
    ActionsOneMore(out.records, record);
  }

  lemma ActionsOneMore(records: seq<(string, Action)>, record: (string, Action))
    ensures multiset(Actions(records + [record])) == multiset(Actions(records)) + multiset{record.1}
  {
    assert Actions(records + [record]) == Actions(records) + [record.1];
  }

  lemma RecordsOne(local: map<string, Row>, rows: Rows, out: Outcome, n: Row)
    ensures RecordKeys(ImportOne(local, rows, out, n).1.records) == RecordKeys(out.records) + [Key(n)]
  {
    hide IncomingNewer, LogicalKey, UpdateWhere;
  }

  lemma {:induction false} ImportTallies(local: map<string, Row>, rows: Rows, out: Outcome, batch: seq<Row>)
    requires Tallied(out)
    ensures var out' := ImportRest(local, rows, out, batch).1;
            Tallied(out') && RecordKeys(out'.records) == RecordKeys(out.records) + Keys(batch)
    decreases |batch|
  {
    hide ImportOne, Tallied, OneMore, RecordKeys;
    if batch != [] {
      var (rows', out') := ImportOne(local, rows, out, batch[0]);
      var record := ImportsOneMore(local, rows, out, batch[0]);
      TalliesOne(out, out', record);
      RecordsOne(local, rows, out, batch[0]);
      ImportTallies(local, rows', out', batch[1..]);
    }
  }

  /** A version of key `k` is still there: stored, or in the archive. */
  ghost predicate Kept(rows: seq<Row>, archived: seq<Archived>, k: string, v: Version) {
    || (Lookup(rows, k).Some? && Lookup(rows, k).value.Same(v))
    || exists a :: a in archived && a.key == k && a.row.v == v
  }

  lemma {:induction false} IncomingOf(batch: seq<Row>, n: Row)
    requires UniqueBatch(batch) && n in batch
    ensures Incoming(batch, Key(n)) == Some(n.v)
  {
    BatchTail(batch);
    if n != batch[0] { IncomingOf(batch[1..], n); }
  }

  lemma {:induction false} IncomingFrom(batch: seq<Row>, k: string)
    requires Incoming(batch, k).Some?
    ensures exists n :: n in batch && Key(n) == k && n.v == Incoming(batch, k).value
  {
    if Key(batch[0]) != k { IncomingFrom(batch[1..], k); }
  }

  /** The archive holds only versions that lost to what is stored afterwards,
      each under the revision of the winner. */
  lemma ArchiveHoldsLosers(rows: Rows, batch: seq<Row>, a: Archived)
    requires UniqueKeys(rows.all) && UniqueBatch(batch) && a in Imported(rows, batch).1.archived
    ensures var w := Lookup(Imported(rows, batch).0.all, a.key);
            w.Some? && w.value.rev == a.winner && !w.value.Same(a.row.v) && !a.row.v.Newer(w.value)
  {
    hide ImportRest, UniqueKeys, UniqueBatch, IncomingNewer;
    var local := Index(rows.all);
    ImportArchivesLosers(local, rows, NOTHING_DONE, batch);
    LosersMembers(local, batch, a);
    var n :| n in batch && a in Loser(local, n);
    IncomingOf(batch, n);
    ImportByKey(rows, batch, Key(n));
    IndexIsLookup(rows.all, Key(n));
    NewerTrichotomy(n.v.rev, local[Key(n)].v.rev);
  }

  // ---- Retention, exactly ----

  function StoredVersions(rows: seq<Row>, k: string): set<Version> { set r | r in rows && r.uuid == k :: r.v }

  /** The payload is still there under its key: stored, or in the archive. */
  ghost predicate Retained(rows: seq<Row>, archived: seq<Archived>, k: string, v: Version) {
    || (exists w :: w in StoredVersions(rows, k) && w.Same(v))
    || (exists a :: a in archived && a.key == k && a.row.v.Same(v))
  }

  /** The row is newer than the indexed one of its key, and differs from it. */
  predicate Overwrites(local: map<string, Row>, n: Row) {
    Key(n) in local && !local[Key(n)].v.Same(n.v) && n.v.Newer(local[Key(n)].v)
  }

  predicate Stale(local: map<string, Row>, n: Row) {
    Key(n) in local && !local[Key(n)].v.Same(n.v) && !n.v.Newer(local[Key(n)].v)
  }

  /** The last version in the batch that overwrites the row of `k`. */
  function LastOverwrite(local: map<string, Row>, batch: seq<Row>, k: string): Option<Version> {
    if batch == [] then None
    else
      var later := LastOverwrite(local, batch[1..], k);
      if later.Some? then later
      else if Key(batch[0]) == k && Overwrites(local, batch[0]) then Some(batch[0].v)
      else None
  }

  function Brings(batch: seq<Row>, k: string): set<Version> { set n | n in batch && Key(n) == k :: n.v }

  ghost predicate StaleTwin(local: map<string, Row>, batch: seq<Row>, n: Row) {
    exists m :: m in batch && Key(m) == Key(n) && m.v.Same(n.v) && Stale(local, m)
  }

  /** Each row of the batch that overwrites a stored one has the payload of the
      last that does, or is archived all the same for a stale twin of it. */
  ghost predicate NoneDropped(local: map<string, Row>, batch: seq<Row>) {
    forall n :: n in batch && Overwrites(local, n) ==> OverwritesLast(local, batch, n) || StaleTwin(local, batch, n)
  }

  predicate OverwritesLast(local: map<string, Row>, batch: seq<Row>, n: Row) {
    var last := LastOverwrite(local, batch, Key(n));
    last.Some? && last.value.Same(n.v)
  }

  lemma StoredAfterUpdate(rows: seq<Row>, key: string, v: Version, k: string)
    ensures StoredVersions(UpdateWhere(rows, key, v), k) ==
      if k == key && StoredVersions(rows, k) != {} then {v} else StoredVersions(rows, k)
  {
    var rows' := UpdateWhere(rows, key, v);
    forall x ensures x in StoredVersions(rows', k) <==>
        if k == key && StoredVersions(rows, k) != {} then x == v else x in StoredVersions(rows, k)
    {
      if x in StoredVersions(rows', k) {
        var i :| 0 <= i < |rows'| && rows'[i].uuid == k && rows'[i].v == x;
        assert rows[i].uuid == k && rows[i].v in StoredVersions(rows, k);
      }
      if k == key && StoredVersions(rows, k) != {} {
        var y :| y in StoredVersions(rows, k);
        var i :| 0 <= i < |rows| && rows[i].uuid == k && rows[i].v == y;
        assert rows'[i] in rows';
      } else if x in StoredVersions(rows, k) {
        var i :| 0 <= i < |rows| && rows[i].uuid == k && rows[i].v == x;
        assert rows'[i] in rows';
      }
    }
  }

  lemma StoredAfterAppend(rows: seq<Row>, r: Row, k: string)
    ensures StoredVersions(rows + [r], k) == StoredVersions(rows, k) + if r.uuid == k then {r.v} else {}
  {
    assert forall x :: x in rows + [r] <==> x in rows || x == r;
  }

  lemma StoredAfterOne(local: map<string, Row>, rows: Rows, out: Outcome, n: Row, k: string)
    ensures var before := StoredVersions(rows.all, k);
            var after := StoredVersions(ImportOne(local, rows, out, n).0.all, k);
            after == if Key(n) != k then before
                     else if k !in local then before + {n.v}
                     else if Overwrites(local, n) && before != {} then {n.v} else before
  {
    hide LogicalKey, IncomingNewer, StoredVersions;
    StoredAfterUpdate(rows.all, Key(n), n.v, k);
    StoredAfterAppend(rows.all, Row(rows.nextId, Key(n), n.v), k);
  }

  lemma {:induction false} StoredAfterRest(local: map<string, Row>, rows: Rows, out: Outcome, batch: seq<Row>,
      k: string)
    ensures var before := StoredVersions(rows.all, k);
            var after := StoredVersions(ImportRest(local, rows, out, batch).0.all, k);
            var last := LastOverwrite(local, batch, k);
            after == if k !in local then before + Brings(batch, k)
                     else if last.Some? && before != {} then {last.value} else before
    decreases |batch|
  {
    hide StoredVersions, ImportOne, Overwrites, LogicalKey;
    if batch == [] {
      assert Brings(batch, k) == {};
      NotLocal(local, batch, k);
    } else {
      var (rows', out') := ImportOne(local, rows, out, batch[0]);
      StoredAfterOne(local, rows, out, batch[0], k);
      StoredAfterRest(local, rows', out', batch[1..], k);
      BringsCons(batch, k);
    }
  }

  lemma BringsCons(batch: seq<Row>, k: string)
    requires batch != []
    ensures Brings(batch, k) == (if Key(batch[0]) == k then {batch[0].v} else {}) + Brings(batch[1..], k)
  {
    hide LogicalKey;
    assert batch == [batch[0]] + batch[1..];
  }

  lemma {:induction false} NotLocal(local: map<string, Row>, batch: seq<Row>, k: string)
    ensures LastOverwrite(local, batch, k).Some? ==> k in local
    ensures LastOverwrite(local, batch, k).Some? <==> exists n :: n in batch && Key(n) == k && Overwrites(local, n)
  {
    hide LogicalKey;
    if batch != [] {
      NotLocal(local, batch[1..], k);
      assert batch == [batch[0]] + batch[1..];
    }
  }

  lemma UniqueStored(rows: seq<Row>, k: string)
    requires UniqueKeys(rows)
    ensures StoredVersions(rows, k) == if k in Index(rows) then {Index(rows)[k].v} else {}
  {
    IndexIsLookup(rows, k);
    LookupAbsent(rows, k);
    forall v | v in StoredVersions(rows, k) ensures k in Index(rows) && v == Index(rows)[k].v {
      var i :| 0 <= i < |rows| && rows[i].uuid == k && rows[i].v == v;
      LookupAt(rows, i);
    }
    if k in Index(rows) {
      var i :| 0 <= i < |rows| && rows[i].uuid == k;
      LookupAt(rows, i);
      assert rows[i].v in StoredVersions(rows, k);
    }
  }

  /** What the archive holds of a key: the indexed row, once it was overwritten,
      and the stale rows of the batch. */
  lemma ArchivedPayloads(rows: Rows, batch: seq<Row>, k: string, v: Version)
    requires k in Index(rows.all)
    ensures var local := Index(rows.all);
            (exists a :: a in Imported(rows, batch).1.archived && a.key == k && a.row.v.Same(v)) <==>
              || (LastOverwrite(local, batch, k).Some? && local[k].v.Same(v))
              || (exists m :: m in batch && Key(m) == k && m.v.Same(v) && Stale(local, m))
  {
    hide LogicalKey, ImportRest, LastOverwrite, Overwrites, Stale, Loser, Index;
    var local := Index(rows.all);
    ImportArchivesLosers(local, rows, NOTHING_DONE, batch);
    NotLocal(local, batch, k);
    var archived := Imported(rows, batch).1.archived;
    assert archived == Losers(local, batch);
    hide Losers;
    if a :| a in archived && a.key == k && a.row.v.Same(v) {
      LosersMembers(local, batch, a);
      var n :| n in batch && a in Loser(local, n);
      LoserFacts(local, n);
    }
    if m :| m in batch && Key(m) == k && m.v.Same(v) && Stale(local, m) {
      LoserFacts(local, m);
      LosersMembers(local, batch, Loser(local, m)[0]);
    }
    if LastOverwrite(local, batch, k).Some? && local[k].v.Same(v) {
      var n :| n in batch && Key(n) == k && Overwrites(local, n);
      LoserFacts(local, n);
      LosersMembers(local, batch, Loser(local, n)[0]);
    }
  }

  lemma LoserFacts(local: map<string, Row>, n: Row)
    ensures Overwrites(local, n) ==> Key(n) in local && LoserIs(Loser(local, n), Key(n), local[Key(n)])
    ensures Stale(local, n) ==> LoserIs(Loser(local, n), Key(n), n)
    ensures !Overwrites(local, n) && !Stale(local, n) ==> Loser(local, n) == []
  {
    hide LogicalKey, IncomingNewer;
  }

  predicate LoserIs(losers: seq<Archived>, key: string, row: Row) {
    |losers| == 1 && losers[0] in losers && losers[0].key == key && losers[0].row == row
  }

  lemma PriorIsRetained(rows: Rows, batch: seq<Row>, k: string, v: Version)
    requires UniqueKeys(rows.all) && v in StoredVersions(rows.all, k)
    ensures Retained(Imported(rows, batch).0.all, Imported(rows, batch).1.archived, k, v)
  {
    hide LogicalKey, ImportRest, LastOverwrite, Index, UniqueKeys, StoredVersions;
    UniqueStored(rows.all, k);
    StoredAfterRest(Index(rows.all), rows, NOTHING_DONE, batch, k);
    ArchivedPayloads(rows, batch, k, v);
  }

  lemma IncomingIsRetainedIff(rows: Rows, batch: seq<Row>, n: Row)
    requires UniqueKeys(rows.all) && n in batch
    ensures var local := Index(rows.all);
            Retained(Imported(rows, batch).0.all, Imported(rows, batch).1.archived, Key(n), n.v) <==>
              (Overwrites(local, n) ==> OverwritesLast(local, batch, n) || StaleTwin(local, batch, n))
  {
    hide LogicalKey, ImportRest, LastOverwrite, Index, UniqueKeys, StoredVersions;
    var k, local := Key(n), Index(rows.all);
    UniqueStored(rows.all, k);
    StoredAfterRest(local, rows, NOTHING_DONE, batch, k);
    NotLocal(local, batch, k);
    if k in local {
      ArchivedPayloads(rows, batch, k, n.v);
    } else {
      assert n.v in Brings(batch, k);
    }
  }

  /** For any batch, keys repeated or not: every payload stored before and every
      payload of the batch is afterwards stored under its key or archived, if and
      only if no row that overwrites a stored one is dropped. */
  lemma ImportRetainsIff(rows: Rows, batch: seq<Row>)
    requires UniqueKeys(rows.all)
    ensures var (rows', out) := Imported(rows, batch);
            (&& (forall k, v :: v in StoredVersions(rows.all, k) ==> Retained(rows'.all, out.archived, k, v))
             && (forall n :: n in batch ==> Retained(rows'.all, out.archived, Key(n), n.v)))
            <==> NoneDropped(Index(rows.all), batch)
  {
    hide LogicalKey, Imported, OverwritesLast, Index, UniqueKeys, StoredVersions, Retained, Overwrites, StaleTwin;
    var (rows', out) := Imported(rows, batch);
    var local := Index(rows.all);
    forall k, v | v in StoredVersions(rows.all, k) ensures Retained(rows'.all, out.archived, k, v) {
      PriorIsRetained(rows, batch, k, v);
    }
    forall n | n in batch
      ensures Retained(rows'.all, out.archived, Key(n), n.v) <==>
              (Overwrites(local, n) ==> OverwritesLast(local, batch, n) || StaleTwin(local, batch, n))
    {
      IncomingIsRetainedIff(rows, batch, n);
    }
  }

  lemma {:induction false} UniqueDropsNone(local: map<string, Row>, batch: seq<Row>)
    requires UniqueBatch(batch)
    ensures forall n :: n in batch && Overwrites(local, n) ==> LastOverwrite(local, batch, Key(n)) == Some(n.v)
  {
    hide LogicalKey, Overwrites;
    if batch != [] {
      BatchTail(batch);
      UniqueDropsNone(local, batch[1..]);
      NotLocal(local, batch[1..], Key(batch[0]));
    }
  }

  /** Any batch: every incoming row is counted under exactly one action, in batch
      order. A batch without repeated keys loses nothing: every payload stored
      before and every payload of the batch is afterwards stored under its key or
      archived, and a version that is archived is so as it was. */
  lemma ImportLosesNothing(rows: Rows, batch: seq<Row>)
    requires UniqueKeys(rows.all)
    ensures var (rows', out) := Imported(rows, batch);
            && Tallied(out) && RecordKeys(out.records) == Keys(batch)
            && (UniqueBatch(batch) ==>
                  && NoneDropped(Index(rows.all), batch)
                  && (forall k, v :: v in StoredVersions(rows.all, k) ==> Retained(rows'.all, out.archived, k, v))
                  && (forall n :: n in batch ==> Retained(rows'.all, out.archived, Key(n), n.v))
                  && (forall k :: Lookup(rows.all, k).Some? ==>
                        Kept(rows'.all, out.archived, k, Lookup(rows.all, k).value))
                  && (forall n :: n in batch ==> Kept(rows'.all, out.archived, Key(n), n.v)))
  {
    hide ImportRest, UniqueKeys, UniqueBatch, Kept, Tallied, RecordKeys, Keys, Lookup, LogicalKey;
    hide Retained, StoredVersions;
    hide Overwrites, LastOverwrite, Index;
    NothingDone();
    assert [] + Keys(batch) == Keys(batch);
    var (rows', out) := Imported(rows, batch);
    ImportTallies(Index(rows.all), rows, NOTHING_DONE, batch);
    if UniqueBatch(batch) {
      UniqueDropsNone(Index(rows.all), batch);
      ImportRetainsIff(rows, batch);
      forall k | Lookup(rows.all, k).Some? ensures Kept(rows'.all, out.archived, k, Lookup(rows.all, k).value) {
        KeyKeeps(rows, batch, k);
      }
      forall n | n in batch ensures Kept(rows'.all, out.archived, Key(n), n.v) {
        KeyKeeps(rows, batch, Key(n));
        IncomingOf(batch, n);
      }
    }
  }

  lemma KeyKeeps(rows: Rows, batch: seq<Row>, k: string)
    requires UniqueKeys(rows.all) && UniqueBatch(batch)
    ensures var (rows', out) := Imported(rows, batch);
            && (Lookup(rows.all, k).Some? ==> Kept(rows'.all, out.archived, k, Lookup(rows.all, k).value))
            && (Incoming(batch, k).Some? ==> Kept(rows'.all, out.archived, k, Incoming(batch, k).value))
  {
    var local := Index(rows.all);
    var (rows', out) := Imported(rows, batch);
    ImportByKey(rows, batch, k);
    IndexIsLookup(rows.all, k);
    if Incoming(batch, k).Some? {
      IncomingFrom(batch, k);
      var n :| n in batch && Key(n) == k && n.v == Incoming(batch, k).value;
      ImportArchivesLosers(local, rows, NOTHING_DONE, batch);
      if Loser(local, n) != [] {
        var a := Loser(local, n)[0];
        LosersMembers(local, batch, a);
        assert a in out.archived;
      }
    }
  }

  const EXTRA := NoteExtra("", 1, None)

  /** A version of a note, written at `ms`. */
  function At(text: string, ms: int): Version { Version(Note(text, ""), 0, Rev(Stamp("t", Some(ms)), None), EXTRA) }

  /** Two newer versions of the one stored key, in one batch. */
  lemma TwoOverwrites(v0: Version, v1: Version, v2: Version)
    requires v0.deleted == 0 && v1.deleted == 0 && v2.deleted == 0
    requires !v0.Same(v1) && !v0.Same(v2) && v1.Newer(v0) && v2.Newer(v0)
    ensures var (rows', out') := Imported(Rows([Row(1, "k", v0)], 2), [Row(7, "k", v1), Row(8, "k", v2)]);
            rows'.all == [Row(1, "k", v2)] && forall a :: a in out'.archived ==> a.row.v == v0
  {
    hide IncomingNewer;
    var rows := Rows([Row(1, "k", v0)], 2);
    var n1, n2 := Row(7, "k", v1), Row(8, "k", v2);
    assert !IsSpace('k') && !Blank("k");
    assert rows.all[..0] == [] && Index([]) == map[];
    var local := Index(rows.all);
    assert local == map["k" := rows.all[0]];
    assert Key(n1) == "k" && Key(n2) == "k";
    var (rows1, out1) := ImportOne(local, rows, NOTHING_DONE, n1);
    var (rows2, out2) := ImportOne(local, rows1, out1, n2);
    assert [n1, n2][1..] == [n2] && [n2][1..] == [];
    assert ImportRest(local, rows2, out2, []) == (rows2, out2);
    assert ImportRest(local, rows1, out1, [n2]) == (rows2, out2);
    assert Imported(rows, [n1, n2]) == (rows2, out2);
  }

  /** The index is not refreshed while a batch is imported, so of two newer
      versions of one stored key in the same batch, the first vanishes. */
  lemma RepeatedKeyLosesVersion()
    ensures exists rows: Rows, batch: seq<Row>, n: Row ::
        && UniqueKeys(rows.all) && n in batch
        && !Retained(Imported(rows, batch).0.all, Imported(rows, batch).1.archived, Key(n), n.v)
  {
    var v0, v1, v2 := At("0", 0), At("1", 1), At("2", 2);
    var rows, n := Rows([Row(1, "k", v0)], 2), Row(7, "k", v1);
    var batch := [n, Row(8, "k", v2)];
    assert v1.Newer(v0) && v2.Newer(v0) && !v0.Same(v1) && !v2.Same(v1);
    hide IncomingNewer, Imported;
    TwoOverwrites(v0, v1, v2);
    assert n in batch;
    assert StoredVersions(Imported(rows, batch).0.all, Key(n)) <= {v2};
  }
}
