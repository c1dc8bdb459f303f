/** Merging another device's notes or todos into the local table: last writer
    wins, and the version that loses is archived. */
module Merge {
  import opened Events
  import opened Conflict
  import opened Text

  /** The columns whose equality makes two versions the same, besides `deleted`. */
  datatype Payload =
    | Note(content: string, tags: string)
    | Todo(title: string, body: Option<string>, completed: int, todoTags: string, subtasks: string, listId: int)

  /** The columns that travel along but are not compared. */
  datatype Extra =
    | NoteExtra(createdAt: string, version: int, syncedAt: Option<string>)
    | TodoExtra(priority: Option<int>, dueDate: Option<string>, created: string, completedAt: Option<string>,
                todoVersion: int, todoSyncedAt: Option<string>)

  datatype Version = Version(payload: Payload, deleted: int, rev: Rev, extra: Extra) {
    predicate Same(other: Version) { payload == other.payload && deleted == other.deleted }

    predicate Newer(other: Version) { rev.Newer(other.rev) }
  }

  datatype Row = Row(id: int, uuid: string, v: Version)

  function LogicalKey(uuid: string, id: int): string {
    if Blank(uuid) then "legacy:" + Decimal(id) else uuid
  }

  function Key(n: Row): string { LogicalKey(n.uuid, n.id) }

  datatype Reason = OverwrittenByRemote | DeletedByRemote | StaleRemoteIgnored

  /** A losing row, as it goes to the trash. */
  datatype Archived = Archived(key: string, row: Row, winner: Rev, reason: Reason)

  datatype Action = Created | Updated | Deleted | IgnoredStale | IgnoredDup

  datatype Outcome = Outcome(created: nat, updated: nat, deleted: nat, ignoredStale: nat, ignoredDup: nat,
                             archived: seq<Archived>, records: seq<(string, Action)>)
  {
    function Applied(): nat { created + updated + deleted }
  }

  const NOTHING_DONE := Outcome(0, 0, 0, 0, 0, [], [])

  /** A table with its next automatic id. */
  datatype Rows = Rows(all: seq<Row>, nextId: int)

  /** The local rows by uuid; of rows that share one, the last is kept. */
  function Index(rows: seq<Row>): map<string, Row> {
    if rows == [] then map[]
    else Index(rows[..|rows| - 1])[rows[|rows| - 1].uuid := rows[|rows| - 1]]
  }

  /** UPDATE ... WHERE uuid = key: everything but id and uuid is overwritten. */
  function UpdateWhere(rows: seq<Row>, key: string, v: Version): (r: seq<Row>)
    ensures |r| == |rows|
  {
    seq(|rows|, i requires 0 <= i < |rows| => if rows[i].uuid == key then rows[i].(v := v) else rows[i])
  }

  /** What importing one incoming row does, given the index built beforehand. */
  function ImportOne(local: map<string, Row>, rows: Rows, out: Outcome, n: Row): (Rows, Outcome) {
    var key := Key(n);
    if key !in local then
      (Rows(rows.all + [Row(rows.nextId, key, n.v)], rows.nextId + 1),
       out.(created := out.created + 1, records := out.records + [(key, Created)]))
    else
      var ln := local[key];
      if ln.v.Same(n.v) then
        (rows, out.(ignoredDup := out.ignoredDup + 1, records := out.records + [(key, IgnoredDup)]))
      else if n.v.Newer(ln.v) then
        var gone := n.v.deleted != 0;
        var lost := Archived(key, ln, n.v.rev, if gone then DeletedByRemote else OverwrittenByRemote);
        var out' := out.(archived := out.archived + [lost]);
        (rows.(all := UpdateWhere(rows.all, key, n.v)),
         if gone then out'.(deleted := out.deleted + 1, records := out.records + [(key, Deleted)])
         else out'.(updated := out.updated + 1, records := out.records + [(key, Updated)]))
      else
        (rows, out.(ignoredStale := out.ignoredStale + 1,
                    archived := out.archived + [Archived(key, n, ln.v.rev, StaleRemoteIgnored)],
                    records := out.records + [(key, IgnoredStale)]))
  }

  function ImportRest(local: map<string, Row>, rows: Rows, out: Outcome, batch: seq<Row>): (Rows, Outcome)
    decreases |batch|
  {
    if batch == [] then (rows, out)
    else
      var (rows', out') := ImportOne(local, rows, out, batch[0]);
      ImportRest(local, rows', out', batch[1..])
  }

  function Imported(rows: Rows, batch: seq<Row>): (Rows, Outcome) {
    ImportRest(Index(rows.all), rows, NOTHING_DONE, batch)
  }

  /** A notes or todos table. */
  class Table {
    var rows: seq<Row>
    var nextId: int

    function State(): Rows
      reads this
    {
      Rows(rows, nextId)
    }

    constructor (rows: seq<Row>, nextId: int)
      ensures State() == Rows(rows, nextId)
    {
      this.rows, this.nextId := rows, nextId;
    }

    method BuildIndex() returns (local: map<string, Row>)
      ensures local == Index(rows)
    {
      local := map[];
      for i := 0 to |rows|
        invariant local == Index(rows[..i])
      {
        assert rows[..i + 1][..i] == rows[..i];
        local := local[rows[i].uuid := rows[i]];
      }
      assert rows[..|rows|] == rows;
    }

    /** import_inbox and import_todo: one loop, over either payload. */
    method Import(batch: seq<Row>) returns (out: Outcome)
      modifies this
      ensures (State(), out) == Imported(old(State()), batch)
    {
      var local := BuildIndex();
      out := NOTHING_DONE;
      ghost var whole := Imported(State(), batch);
      assert batch[0..] == batch;
      for i := 0 to |batch|
        invariant ImportRest(local, State(), out, batch[i..]) == whole
      {
        var n := batch[i];
        ghost var rest := batch[i..];
        assert rest[0] == n && rest[1..] == batch[i + 1..];
        ghost var (rows', out') := ImportOne(local, State(), out, n);
        var key := LogicalKey(n.uuid, n.id);
        if key in local {
          var ln := local[key];
          if ln.v.Same(n.v) {
            out := out.(ignoredDup := out.ignoredDup + 1, records := out.records + [(key, IgnoredDup)]);
          } else if n.v.Newer(ln.v) {
            var reason := if n.v.deleted != 0 then DeletedByRemote else OverwrittenByRemote;
            out := out.(archived := out.archived + [Archived(key, ln, n.v.rev, reason)]);
            rows := UpdateWhere(rows, key, n.v);
            if n.v.deleted != 0 {
              out := out.(deleted := out.deleted + 1, records := out.records + [(key, Deleted)]);
            } else {
              out := out.(updated := out.updated + 1, records := out.records + [(key, Updated)]);
            }
          } else {
            out := out.(archived := out.archived + [Archived(key, n, ln.v.rev, StaleRemoteIgnored)]);
            out := out.(ignoredStale := out.ignoredStale + 1, records := out.records + [(key, IgnoredStale)]);
          }
        } else {
          rows := rows + [Row(nextId, key, n.v)];
          nextId := nextId + 1;
          out := out.(created := out.created + 1, records := out.records + [(key, Created)]);
        }
        assert State() == rows' && out == out';
      }
      assert batch[|batch|..] == [];
    }
  }

  // ---- Keys ----

  lemma KeyFacts(uuid: string, id: int)
    ensures !Blank(LogicalKey(uuid, id))
    ensures LogicalKey(LogicalKey(uuid, id), id) == LogicalKey(uuid, id)
  {
    if Blank(uuid) {
      var s := "legacy:" + Decimal(id);
      assert s[0] == 'l';
      NotBlank(s, 0);
    }
  }

  lemma {:induction false} NotBlank(s: string, i: nat)
    requires i < |s| && !IsSpace(s[i])
    ensures !Blank(s)
    decreases |s|
  {
    if IsSpace(s[0]) { NotBlank(s[1..], i - 1); } else { TrimEndKeeps(s, i); }
  }

  lemma {:induction false} TrimEndKeeps(s: string, i: nat)
    requires i < |s| && !IsSpace(s[i])
    ensures TrimEnd(s) != ""
  {
    if IsSpace(s[|s| - 1]) { TrimEndKeeps(s[..|s| - 1], i); }
  }

  ghost predicate UniqueKeys(rows: seq<Row>) {
    forall i, j :: 0 <= i < j < |rows| ==> rows[i].uuid != rows[j].uuid
  }

  ghost predicate UniqueBatch(batch: seq<Row>) {
    forall i, j :: 0 <= i < j < |batch| ==> Key(batch[i]) != Key(batch[j])
  }

  /** The version stored under `k`. */
  function Lookup(rows: seq<Row>, k: string): Option<Version> {
    if rows == [] then None else if rows[0].uuid == k then Some(rows[0].v) else Lookup(rows[1..], k)
  }

  /** The version that a batch brings for `k`. */
  function Incoming(batch: seq<Row>, k: string): Option<Version> {
    if batch == [] then None else if Key(batch[0]) == k then Some(batch[0].v) else Incoming(batch[1..], k)
  }

  lemma {:induction false} LookupAbsent(rows: seq<Row>, k: string)
    ensures Lookup(rows, k).None? <==> forall i :: 0 <= i < |rows| ==> rows[i].uuid != k
  {
    if rows != [] {
      LookupAbsent(rows[1..], k);
      assert forall i :: 1 <= i < |rows| ==> rows[i] == rows[1..][i - 1];
      if Lookup(rows, k).None? {
        forall i | 0 <= i < |rows| ensures rows[i].uuid != k {
          if i > 0 { assert rows[i] == rows[1..][i - 1]; }
        }
      }
    }
  }

  lemma {:induction false} LookupAt(rows: seq<Row>, i: nat)
    requires UniqueKeys(rows) && i < |rows|
    ensures Lookup(rows, rows[i].uuid) == Some(rows[i].v)
  {
    if i > 0 {
      LookupAt(rows[1..], i - 1);
    }
  }

  lemma {:induction false} LookupAppend(rows: seq<Row>, r: Row, k: string)
    ensures Lookup(rows + [r], k) ==
      if Lookup(rows, k).Some? then Lookup(rows, k) else if r.uuid == k then Some(r.v) else None
  {
    if rows != [] {
      LookupAppend(rows[1..], r, k);
      assert (rows + [r])[1..] == rows[1..] + [r];
    }
  }

  lemma {:induction false} LookupUpdate(rows: seq<Row>, key: string, v: Version, k: string)
    ensures Lookup(UpdateWhere(rows, key, v), k) ==
      if k == key && Lookup(rows, k).Some? then Some(v) else Lookup(rows, k)
  {
    if rows != [] {
      LookupUpdate(rows[1..], key, v, k);
      assert UpdateWhere(rows, key, v)[1..] == UpdateWhere(rows[1..], key, v);
    }
  }

  lemma {:induction false} IndexIsLookup(rows: seq<Row>, k: string)
    requires UniqueKeys(rows)
    ensures k in Index(rows) <==> Lookup(rows, k).Some?
    ensures k in Index(rows) ==> Index(rows)[k].v == Lookup(rows, k).value && Index(rows)[k].uuid == k
  {
    if rows != [] {
      var n := |rows| - 1;
      IndexIsLookup(rows[..n], k);
      assert rows == rows[..n] + [rows[n]];
      LookupAppend(rows[..n], rows[n], k);
      LookupAbsent(rows[..n], k);
    }
  }

  // ---- One import, key by key ----

  /** Which version survives when `incoming` meets `stored`. */
  function Resolve(stored: Option<Version>, incoming: Option<Version>): Option<Version> {
    if incoming.None? then stored
    else if stored.None? then incoming
    else if !stored.value.Same(incoming.value) && incoming.value.Newer(stored.value) then incoming
    else stored
  }

  predicate SamePayload(a: Option<Version>, b: Option<Version>) {
    (a.Some? <==> b.Some?) && (a.Some? ==> a.value.Same(b.value))
  }

  /** The index still tells the truth about every key that is left in the batch. */
  ghost predicate Current(local: map<string, Row>, rows: seq<Row>, batch: seq<Row>) {
    forall n :: n in batch ==> Indexed(local, rows, Key(n))
  }

  predicate Indexed(local: map<string, Row>, rows: seq<Row>, k: string) {
    Lookup(rows, k) == if k in local then Some(local[k].v) else None
  }

  lemma ImportOneFacts(local: map<string, Row>, rows: Rows, out: Outcome, n: Row, k: string)
    requires UniqueKeys(rows.all) && Indexed(local, rows.all, Key(n))
    ensures var (rows', out') := ImportOne(local, rows, out, n);
            && UniqueKeys(rows'.all)
            && Lookup(rows'.all, k) ==
                 if k == Key(n) then Resolve(Lookup(rows.all, k), Some(n.v)) else Lookup(rows.all, k)
  {
    var key := Key(n);
    if key !in local {
      LookupAbsent(rows.all, key);
      LookupAppend(rows.all, Row(rows.nextId, key, n.v), k);
    } else {
      LookupUpdate(rows.all, key, n.v, k);
    }
  }

  lemma BatchTail(batch: seq<Row>)
    requires batch != [] && UniqueBatch(batch)
    ensures UniqueBatch(batch[1..]) && batch == [batch[0]] + batch[1..]
    ensures forall n :: n in batch[1..] ==> Key(n) != Key(batch[0])
    ensures Incoming(batch[1..], Key(batch[0])).None?
  {
    var tail := batch[1..];
    assert forall i :: 0 <= i < |tail| ==> tail[i] == batch[i + 1];
    NoIncoming(tail, Key(batch[0]));
  }

  lemma {:induction false} NoIncoming(batch: seq<Row>, k: string)
    requires forall n :: n in batch ==> Key(n) != k
    ensures Incoming(batch, k).None?
  {
    if batch != [] { NoIncoming(batch[1..], k); }
  }

  lemma {:induction false} ImportRestLookup(local: map<string, Row>, rows: Rows, out: Outcome, batch: seq<Row>,
      k: string)
    requires UniqueKeys(rows.all) && UniqueBatch(batch) && Current(local, rows.all, batch)
    ensures var (rows', out') := ImportRest(local, rows, out, batch);
            UniqueKeys(rows'.all) && Lookup(rows'.all, k) == Resolve(Lookup(rows.all, k), Incoming(batch, k))
    decreases |batch|
  {
    if batch != [] {
      var n := batch[0];
      assert n in batch;
      var (rows', out') := ImportOne(local, rows, out, n);
      BatchTail(batch);
      ImportOneFacts(local, rows, out, n, k);
      forall m | m in batch[1..] ensures Indexed(local, rows'.all, Key(m)) {
        ImportOneFacts(local, rows, out, n, Key(m));
        assert Indexed(local, rows.all, Key(m));
      }
      ImportRestLookup(local, rows', out', batch[1..], k);
    }
  }

  lemma IndexIsCurrent(rows: seq<Row>, batch: seq<Row>)
    requires UniqueKeys(rows)
    ensures Current(Index(rows), rows, batch)
  {
    forall n | n in batch ensures Indexed(Index(rows), rows, Key(n)) {
      IndexIsLookup(rows, Key(n));
    }
  }

  /** With unique keys on both sides, an import keeps them unique and settles
      each key by itself, between its stored and its incoming version. */
  lemma ImportByKey(rows: Rows, batch: seq<Row>, k: string)
    requires UniqueKeys(rows.all) && UniqueBatch(batch)
    ensures var rows' := Imported(rows, batch).0;
            UniqueKeys(rows'.all) && Lookup(rows'.all, k) == Resolve(Lookup(rows.all, k), Incoming(batch, k))
  {
    IndexIsCurrent(rows.all, batch);
    ImportRestLookup(Index(rows.all), rows, NOTHING_DONE, batch, k);
  }

  // ---- Key uniqueness, exactly ----

  function Uuids(rows: seq<Row>): (r: seq<string>)
    ensures |r| == |rows|
  {
    seq(|rows|, i requires 0 <= i < |rows| => rows[i].uuid)
  }

  function NewKeys(local: map<string, Row>, batch: seq<Row>): seq<string> {
    if batch == [] then []
    else (if Key(batch[0]) in local then [] else [Key(batch[0])]) + NewKeys(local, batch[1..])
  }

  lemma UuidsOne(local: map<string, Row>, rows: Rows, out: Outcome, n: Row)
    ensures Uuids(ImportOne(local, rows, out, n).0.all) == Uuids(rows.all) + if Key(n) in local then [] else [Key(n)]
  {
    hide IncomingNewer, LogicalKey;
  }

  lemma {:induction false} ImportRestUuids(local: map<string, Row>, rows: Rows, out: Outcome, batch: seq<Row>)
    ensures Uuids(ImportRest(local, rows, out, batch).0.all) == Uuids(rows.all) + NewKeys(local, batch)
    decreases |batch|
  {
    hide ImportOne, Uuids, LogicalKey;
    if batch != [] {
      var (rows', out') := ImportOne(local, rows, out, batch[0]);
      UuidsOne(local, rows, out, batch[0]);
      ImportRestUuids(local, rows', out', batch[1..]);
    }
  }

  ghost predicate Distinct(s: seq<string>) {
    forall i, j :: 0 <= i < j < |s| ==> s[i] != s[j]
  }

  /** No key that the table lacks occurs twice in the batch. */
  ghost predicate NewKeysOnce(local: map<string, Row>, batch: seq<Row>) {
    forall i, j :: 0 <= i < j < |batch| && Key(batch[i]) == Key(batch[j]) ==> Key(batch[i]) in local
  }

  lemma {:induction false} NewKeysMembers(local: map<string, Row>, batch: seq<Row>, k: string)
    ensures k in NewKeys(local, batch) <==> k !in local && exists i :: 0 <= i < |batch| && Key(batch[i]) == k
  {
    if batch != [] {
      NewKeysMembers(local, batch[1..], k);
      assert forall i :: 1 <= i < |batch| ==> batch[i] == batch[1..][i - 1];
      if i :| 0 <= i < |batch[1..]| && Key(batch[1..][i]) == k {
        assert Key(batch[i + 1]) == k;
      }
    }
  }

  lemma {:induction false} NewKeysDistinct(local: map<string, Row>, batch: seq<Row>)
    ensures Distinct(NewKeys(local, batch)) <==> NewKeysOnce(local, batch)
  {
    if batch != [] {
      var k, tail := Key(batch[0]), batch[1..];
      var rest := NewKeys(local, tail);
      assert forall i :: 1 <= i < |batch| ==> batch[i] == tail[i - 1];
      NewKeysDistinct(local, tail);
      NewKeysMembers(local, tail, k);
      var all := NewKeys(local, batch);
      if k in local {
        assert all == rest;
      } else {
        assert all == [k] + rest;
        assert Distinct(all) <==> Distinct(rest) && k !in rest by {
          assert forall i :: 0 <= i < |rest| ==> all[i + 1] == rest[i];
          if Distinct(all) {
            forall i, j | 0 <= i < j < |rest| ensures rest[i] != rest[j] { assert all[i + 1] != all[j + 1]; }
            forall i | 0 <= i < |rest| ensures rest[i] != k { assert all[0] != all[i + 1]; }
          }
        }
      }
      if NewKeysOnce(local, batch) {
        forall i, j | 0 <= i < j < |tail| && Key(tail[i]) == Key(tail[j]) ensures Key(tail[i]) in local {
          assert Key(batch[i + 1]) == Key(batch[j + 1]);
        }
      }
    }
  }

  lemma DistinctConcat(a: seq<string>, b: seq<string>)
    requires Distinct(a) && forall k :: k in b ==> k !in a
    ensures Distinct(a + b) <==> Distinct(b)
  {
    if Distinct(a + b) {
      forall i, j | 0 <= i < j < |b| ensures b[i] != b[j] {
        assert (a + b)[|a| + i] != (a + b)[|a| + j];
      }
    }
    assert forall i :: 0 <= i < |b| ==> (a + b)[|a| + i] == b[i] && b[i] in b;
    assert forall i :: 0 <= i < |a| ==> (a + b)[i] == a[i] && a[i] in a;
    assert forall i :: |a| <= i < |a + b| ==> (a + b)[i] in b;
  }

  lemma UniqueIsDistinct(rows: seq<Row>)
    ensures UniqueKeys(rows) <==> Distinct(Uuids(rows))
  {
    assert forall i :: 0 <= i < |rows| ==> Uuids(rows)[i] == rows[i].uuid;
  }

  /** An import keeps the keys of a table unique if and only if the batch brings
      each key that the table lacks at most once. */
  lemma ImportKeepsKeysUnique(rows: Rows, batch: seq<Row>)
    requires UniqueKeys(rows.all)
    ensures UniqueKeys(Imported(rows, batch).0.all) <==> NewKeysOnce(Index(rows.all), batch)
  {
    hide UniqueKeys, Distinct, NewKeysOnce, ImportRest;
    var local := Index(rows.all);
    var old', new' := Uuids(rows.all), NewKeys(local, batch);
    ImportRestUuids(local, rows, NOTHING_DONE, batch);
    NewKeysDistinct(local, batch);
    UniqueIsDistinct(rows.all);
    UniqueIsDistinct(Imported(rows, batch).0.all);
    forall k | k in new' ensures k !in old' {
      NewKeysMembers(local, batch, k);
      IndexIsLookup(rows.all, k);
      LookupAbsent(rows.all, k);
    }
    DistinctConcat(old', new');
  }
}
