/** Importing another device's activity: buckets merge by name, events are
    appended unless their fingerprint is already there. */
module ActivityImport {
  import opened Events
  import opened Text

  datatype BucketMeta = BucketMeta(bucketType: string, client: string, hostname: string, created: string)

  datatype BucketRow = BucketRow(id: int, name: string, meta: BucketMeta)

  datatype EventRow = EventRow(id: int, bucketrow: int, start: int, end: int, data: string)

  datatype IncomingBucket = IncomingBucket(name: string, meta: BucketMeta)

  /** What an event is, whichever row holds it. Incoming events arrive as facts. */
  datatype Fact = Fact(bucket: string, start: int, duration: int, data: string)

  datatype Action = Created | Updated | IgnoredDup

  /** One line of the transfer log: a bucket by name, or an event by fingerprint. */
  datatype Record = BucketRecord(name: string, done: Action) | EventRecord(fingerprint: string, done: Action)

  datatype Outcome = Outcome(created: nat, updated: nat, ignoredDup: nat, errors: seq<string>, records: seq<Record>) {
    function Noted(r: Record): Outcome { this.(records := records + [r]) }
  }

  const NOTHING_DONE := Outcome(0, 0, 0, [], [])

  datatype Db = Db(buckets: seq<BucketRow>, events: seq<EventRow>, nextBucket: int, nextEvent: int)

  function Fingerprint(f: Fact): string {
    f.bucket + "|" + (Decimal(f.start) + "|" + (Decimal(f.duration) + "|" + f.data))
  }

  function BucketIds(buckets: seq<BucketRow>): map<string, int> {
    if buckets == [] then map[]
    else BucketIds(buckets[..|buckets| - 1])[buckets[|buckets| - 1].name := buckets[|buckets| - 1].id]
  }

  /** The bucket that an event row is joined with. */
  function NameOf(buckets: seq<BucketRow>, id: int): Option<string> {
    if buckets == [] then None
    else if buckets[0].id == id then Some(buckets[0].name)
    else NameOf(buckets[1..], id)
  }

  function FactOf(buckets: seq<BucketRow>, e: EventRow): Option<Fact> {
    var name := NameOf(buckets, e.bucketrow);
    if name.None? then None else Some(Fact(name.value, e.start, Max(e.end - e.start, 0), e.data))
  }

  function Fingerprints(buckets: seq<BucketRow>, events: seq<EventRow>): set<string> {
    set e | e in events && FactOf(buckets, e).Some? :: Fingerprint(FactOf(buckets, e).value)
  }

  function UpdateMeta(buckets: seq<BucketRow>, id: int, meta: BucketMeta): (r: seq<BucketRow>)
    ensures |r| == |buckets|
  {
    seq(|buckets|, i requires 0 <= i < |buckets| =>
      if buckets[i].id == id then buckets[i].(meta := meta) else buckets[i])
  }

  function MergeBucket(db: Db, ids: map<string, int>, out: Outcome, b: IncomingBucket)
    : (Db, map<string, int>, Outcome)
  {
    if b.name in ids then
      (db.(buckets := UpdateMeta(db.buckets, ids[b.name], b.meta)), ids,
       out.(updated := out.updated + 1).Noted(BucketRecord(b.name, Updated)))
    else
      (db.(buckets := db.buckets + [BucketRow(db.nextBucket, b.name, b.meta)], nextBucket := db.nextBucket + 1),
       ids[b.name := db.nextBucket], out.(created := out.created + 1).Noted(BucketRecord(b.name, Created)))
  }

  function MergeBuckets(db: Db, ids: map<string, int>, out: Outcome, bs: seq<IncomingBucket>)
    : (Db, map<string, int>, Outcome)
    decreases |bs|
  {
    if bs == [] then (db, ids, out)
    else
      var (db', ids', out') := MergeBucket(db, ids, out, bs[0]);
      MergeBuckets(db', ids', out', bs[1..])
  }

  function AddEvent(db: Db, ids: map<string, int>, fps: set<string>, out: Outcome, f: Fact)
    : (Db, set<string>, Outcome)
  {
    if Fingerprint(f) in fps then
      (db, fps, out.(ignoredDup := out.ignoredDup + 1).Noted(EventRecord(Fingerprint(f), IgnoredDup)))
    else if f.bucket in ids then
      (db.(events := db.events + [EventRow(db.nextEvent, ids[f.bucket], f.start, f.start + f.duration, f.data)],
           nextEvent := db.nextEvent + 1),
       fps + {Fingerprint(f)}, out.(created := out.created + 1).Noted(EventRecord(Fingerprint(f), Created)))
    else (db, fps, out.(errors := out.errors + [f.bucket]))
  }

  function AddEvents(db: Db, ids: map<string, int>, fps: set<string>, out: Outcome, fs: seq<Fact>)
    : (Db, set<string>, Outcome)
    decreases |fs|
  {
    if fs == [] then (db, fps, out)
    else
      var (db', fps', out') := AddEvent(db, ids, fps, out, fs[0]);
      AddEvents(db', ids, fps', out', fs[1..])
  }

  function Imported(db: Db, bs: seq<IncomingBucket>, fs: seq<Fact>): (Db, Outcome) {
    var (db1, ids, out1) := MergeBuckets(db, BucketIds(db.buckets), NOTHING_DONE, bs);
    var (db2, _, out2) := AddEvents(db1, ids, Fingerprints(db.buckets, db.events), out1, fs);
    (db2, out2)
  }

  class ActivityDb {
    var buckets: seq<BucketRow>
    var events: seq<EventRow>
    var nextBucket: int
    var nextEvent: int

    function State(): Db
      reads this
    {
      Db(buckets, events, nextBucket, nextEvent)
    }

    constructor (db: Db)
      ensures State() == db
    {
      buckets, events, nextBucket, nextEvent := db.buckets, db.events, db.nextBucket, db.nextEvent;
    }

    method ReadIds() returns (ids: map<string, int>)
      ensures ids == BucketIds(buckets)
    {
      ids := map[];
      for i := 0 to |buckets|
        invariant ids == BucketIds(buckets[..i])
      {
        assert buckets[..i + 1][..i] == buckets[..i];
        ids := ids[buckets[i].name := buckets[i].id];
      }
      assert buckets[..|buckets|] == buckets;
    }

    method ReadFingerprints() returns (fps: set<string>)
      ensures fps == Fingerprints(buckets, events)
    {
      fps := {};
      for i := 0 to |events|
        invariant fps == Fingerprints(buckets, events[..i])
      {
        assert events[..i + 1] == events[..i] + [events[i]];
        var f := FactOf(buckets, events[i]);
        if f.Some? {
          fps := fps + {Fingerprint(f.value)};
        }
      }
      assert events[..|events|] == events;
    }

    method AddBuckets(bs: seq<IncomingBucket>, ids: map<string, int>, out: Outcome)
      returns (ids': map<string, int>, out': Outcome)
      modifies this
      ensures (State(), ids', out') == MergeBuckets(old(State()), ids, out, bs)
    {
      ids', out' := ids, out;
      ghost var whole := MergeBuckets(State(), ids, out, bs);
      assert bs[0..] == bs;
      for i := 0 to |bs|
        invariant MergeBuckets(State(), ids', out', bs[i..]) == whole
      {
        var b := bs[i];
        assert bs[i..][0] == b && bs[i..][1..] == bs[i + 1..];
        if b.name in ids' {
          buckets := UpdateMeta(buckets, ids'[b.name], b.meta);
          out' := out'.(updated := out'.updated + 1).Noted(BucketRecord(b.name, Updated));
        } else {
          buckets := buckets + [BucketRow(nextBucket, b.name, b.meta)];
          ids' := ids'[b.name := nextBucket];
          nextBucket := nextBucket + 1;
          out' := out'.(created := out'.created + 1).Noted(BucketRecord(b.name, Created));
        }
      }
      assert bs[|bs|..] == [];
    }

    method AppendEvents(fs: seq<Fact>, ids: map<string, int>, known: set<string>, out: Outcome)
      returns (fps: set<string>, out': Outcome)
      modifies this
      ensures (State(), fps, out') == AddEvents(old(State()), ids, known, out, fs)
    {
      hide Fingerprint;
      fps, out' := known, out;
      ghost var whole := AddEvents(State(), ids, fps, out, fs);
      assert fs[0..] == fs;
      for i := 0 to |fs|
        invariant AddEvents(State(), ids, fps, out', fs[i..]) == whole
      {
        var f := fs[i];
        assert fs[i..][0] == f && fs[i..][1..] == fs[i + 1..];
        var fp := Fingerprint(f);
        if fp in fps {
          out' := out'.(ignoredDup := out'.ignoredDup + 1).Noted(EventRecord(fp, IgnoredDup));
        } else if f.bucket in ids {
          events := events + [EventRow(nextEvent, ids[f.bucket], f.start, f.start + f.duration, f.data)];
          nextEvent := nextEvent + 1;
          fps := fps + {fp};
          out' := out'.(created := out'.created + 1).Noted(EventRecord(fp, Created));
        } else {
          out' := out'.(errors := out'.errors + [f.bucket]);
        }
      }
      assert fs[|fs|..] == [];
    }

    method Import(bs: seq<IncomingBucket>, fs: seq<Fact>) returns (out: Outcome)
      modifies this
      ensures (State(), out) == Imported(old(State()), bs, fs)
    {
      var ids := ReadIds();
      var fps := ReadFingerprints();
      out := NOTHING_DONE;
      ids, out := AddBuckets(bs, ids, out);
      fps, out := AppendEvents(fs, ids, fps, out);
    }
  }

  // ---- Fingerprints ----

  lemma SplitAtPipe(a: string, x: string, b: string, y: string)
    requires '|' !in a && '|' !in b && a + "|" + x == b + "|" + y
    ensures a == b && x == y
  {
    var s, s' := a + "|" + x, b + "|" + y;
    assert s[|a|] == '|' && s'[|b|] == '|';
    assert a == s[..|a|] && b == s'[..|b|];
    assert x == s[|a| + 1..] && y == s'[|b| + 1..];
  }

  /** Within a bucket, whatever its name, a fingerprint identifies its event. */
  lemma FingerprintInjective(f: Fact, g: Fact)
    requires f.bucket == g.bucket && Fingerprint(f) == Fingerprint(g)
    ensures f == g
  {
    DecimalFacts(f.start);
    DecimalFacts(g.start);
    DecimalFacts(f.duration);
    DecimalFacts(g.duration);
    var x1, y1 := Decimal(f.duration) + "|" + f.data, Decimal(g.duration) + "|" + g.data;
    var x, y := Decimal(f.start) + "|" + x1, Decimal(g.start) + "|" + y1;
    assert Fingerprint(f)[|f.bucket| + 1..] == x && Fingerprint(g)[|g.bucket| + 1..] == y;
    SplitAtPipe(Decimal(f.start), x1, Decimal(g.start), y1);
    SplitAtPipe(Decimal(f.duration), f.data, Decimal(g.duration), g.data);
    DecimalInjective(f.start, g.start);
    DecimalInjective(f.duration, g.duration);
  }

  // Name `b` goes on after `a` like a fingerprint of `a` does.
  predicate ByStart(a: string, b: string, m: int) { b == a + "|" + Decimal(m) }

  predicate ByLength(a: string, b: string, m: int, n: int) { b == a + "|" + (Decimal(m) + "|" + Decimal(n)) }

  predicate ByData(a: string, b: string, m: int, n: int, x: string) {
    b == a + "|" + (Decimal(m) + "|" + (Decimal(n) + "|" + x))
  }

  ghost predicate Extends(a: string, b: string) {
    || (exists m :: ByStart(a, b, m))
    || (exists m, n :: ByLength(a, b, m, n))
    || (exists m, n, x :: ByData(a, b, m, n, x))
  }

  ghost predicate Collide(f: Fact, g: Fact, a: string, b: string) {
    f.bucket == a && g.bucket == b && Fingerprint(f) == Fingerprint(g)
  }

  lemma InPiece(p: string, r: string)
    ensures forall i :: 0 <= i < |p| ==> (p + "|" + r)[i] in p
  {}

  lemma PieceAtPipe(p: string, r: string, s: string, q: string)
    requires '|' !in p && p + "|" + r == s + "|" + q
    ensures s == p || (|s| > |p| && s == p + "|" + s[|p| + 1..] && r == s[|p| + 1..] + "|" + q)
  {
    var whole := p + "|" + r;
    assert whole[|s|] == '|' && whole[|p|] == '|';
    InPiece(p, r);
    assert p == whole[..|p|] && s == whole[..|s|];
    if |s| > |p| {
      assert s[..|p|] == p && s[|p|] == '|';
      assert r == whole[|p| + 1..];
    }
  }

  lemma LongerNameExtends(f: Fact, g: Fact)
    requires |f.bucket| < |g.bucket| && Fingerprint(f) == Fingerprint(g)
    ensures Extends(f.bucket, g.bucket)
  {
    var a, b, m, n := f.bucket, g.bucket, f.start, f.duration;
    var q := Decimal(g.start) + "|" + (Decimal(g.duration) + "|" + g.data);
    var fp := Fingerprint(f);
    assert a == fp[..|a|] && b == fp[..|b|] && fp[|a|] == '|';
    var s := b[|a| + 1..];
    assert b == a + "|" + s;
    var r := Decimal(n) + "|" + f.data;
    assert Decimal(m) + "|" + r == fp[|a| + 1..] == s + "|" + q;
    DecimalFacts(m);
    DecimalFacts(n);
    PieceAtPipe(Decimal(m), r, s, q);
    if s == Decimal(m) {
      assert ByStart(a, b, m);
    } else {
      var s' := s[|Decimal(m)| + 1..];
      PieceAtPipe(Decimal(n), f.data, s', q);
      if s' == Decimal(n) {
        assert ByLength(a, b, m, n);
      } else {
        assert ByData(a, b, m, n, s'[|Decimal(n)| + 1..]);
      }
    }
  }

  lemma ExtendedFingerprint(a: string, m: int, n: int, data: string, s: string, rest: string)
    requires s + "|" + rest == Decimal(m) + "|" + (Decimal(n) + "|" + data)
    ensures Fingerprint(Fact(a, m, n, data)) == a + "|" + s + "|" + rest
  {
    assert a + "|" + (s + "|" + rest) == a + "|" + s + "|" + rest;
  }

  /** Two facts, of a name and of one that extends it, that share a fingerprint;
      `x` is the end of both their data. */
  lemma ExtendingNamesCollide(a: string, b: string, x: string) returns (f: Fact, g: Fact)
    requires Extends(a, b)
    ensures Collide(f, g, a, b) && g.duration == 0 && |Fingerprint(g)| >= |x|
  {
    hide Decimal;
    g := Fact(b, 0, 0, x);
    var zero := Decimal(0);
    var rest := zero + "|" + (zero + "|" + x);
    if m :| ByStart(a, b, m) {
      f := Fact(a, m, 0, zero + "|" + x);
      ExtendedFingerprint(a, m, 0, f.data, Decimal(m), rest);
    } else if m, n :| ByLength(a, b, m, n) {
      f := Fact(a, m, n, rest);
      var s := Decimal(m) + "|" + Decimal(n);
      assert s + "|" + rest == Decimal(m) + "|" + (Decimal(n) + "|" + rest);
      ExtendedFingerprint(a, m, n, f.data, s, rest);
    } else {
      var m, n, y :| ByData(a, b, m, n, y);
      f := Fact(a, m, n, y + "|" + rest);
      var s := Decimal(m) + "|" + (Decimal(n) + "|" + y);
      assert s + "|" + rest == Decimal(m) + "|" + (Decimal(n) + "|" + (y + "|" + rest));
      ExtendedFingerprint(a, m, n, f.data, s, rest);
    }
  }

  lemma SameLengthSameName(f: Fact, g: Fact)
    requires |f.bucket| == |g.bucket| && Fingerprint(f) == Fingerprint(g)
    ensures f.bucket == g.bucket
  {
    assert f.bucket == Fingerprint(f)[..|f.bucket|] && g.bucket == Fingerprint(g)[..|g.bucket|];
  }

  /** Events of two buckets can share a fingerprint if and only if one name goes
      on after the other like a fingerprint does: with a pipe and a number. */
  lemma NamesCollideIff(a: string, b: string)
    requires a != b
    ensures (exists f, g :: Collide(f, g, a, b)) <==> Extends(a, b) || Extends(b, a)
  {
    if f, g :| Collide(f, g, a, b) {
      if |a| < |b| {
        LongerNameExtends(f, g);
      } else if |b| < |a| {
        LongerNameExtends(g, f);
      } else {
        SameLengthSameName(f, g);
      }
    }
    if Extends(a, b) {
      var f, g := ExtendingNamesCollide(a, b, "");
    } else if Extends(b, a) {
      var f, g := ExtendingNamesCollide(b, a, "");
      assert Collide(g, f, a, b);
    }
  }

  /** For instance: */
  lemma FingerprintsCollide()
    ensures exists f: Fact, g: Fact :: f != g && Fingerprint(f) == Fingerprint(g)
  {
    var f, g := Fact("a", 1, 2, "3|x"), Fact("a|1", 2, 3, "x");
    assert Decimal(1) == "1" && Decimal(2) == "2" && Decimal(3) == "3";
    assert Fingerprint(f) == "a|1|2|3|x" == Fingerprint(g);
  }

  // ---- Merging the buckets ----

  ghost predicate Distinct(buckets: seq<BucketRow>) {
    forall i, j :: 0 <= i < j < |buckets| ==> buckets[i].id != buckets[j].id && buckets[i].name != buckets[j].name
  }

  ghost predicate Valid(db: Db) {
    && Distinct(db.buckets)
    && (forall b :: b in db.buckets ==> b.id < db.nextBucket)
    && (forall e :: e in db.events ==> e.bucketrow < db.nextBucket)
  }

  /** `ids` maps every bucket name to the row that bears it, and nothing else. */
  ghost predicate Maps(ids: map<string, int>, buckets: seq<BucketRow>) {
    && (forall b :: b in buckets ==> b.name in ids)
    && (forall name :: name in ids ==> NameOf(buckets, ids[name]) == Some(name))
  }

  lemma {:induction false} NameOfFacts(buckets: seq<BucketRow>, id: int)
    ensures NameOf(buckets, id).None? ==> forall b :: b in buckets ==> b.id != id
    ensures NameOf(buckets, id).Some? ==> exists b :: b in buckets && b.id == id && b.name == NameOf(buckets, id).value
  {
    if buckets != [] && buckets[0].id != id {
      NameOfFacts(buckets[1..], id);
      assert forall b :: b in buckets ==> b == buckets[0] || b in buckets[1..];
    }
  }

  lemma {:induction false} NameOfAppend(buckets: seq<BucketRow>, b: BucketRow, id: int)
    ensures NameOf(buckets + [b], id) ==
      if NameOf(buckets, id).Some? then NameOf(buckets, id) else if b.id == id then Some(b.name) else None
  {
    if buckets != [] {
      NameOfAppend(buckets[1..], b, id);
      assert (buckets + [b])[1..] == buckets[1..] + [b];
    }
  }

  lemma {:induction false} NameOfUpdate(buckets: seq<BucketRow>, bid: int, meta: BucketMeta, id: int)
    ensures NameOf(UpdateMeta(buckets, bid, meta), id) == NameOf(buckets, id)
  {
    if buckets != [] {
      NameOfUpdate(buckets[1..], bid, meta, id);
      assert UpdateMeta(buckets, bid, meta)[1..] == UpdateMeta(buckets[1..], bid, meta);
    }
  }

  lemma MapsOneMore(ids: map<string, int>, buckets: seq<BucketRow>, row: BucketRow)
    requires Maps(ids, buckets) && row.name !in ids && NameOf(buckets, row.id).None?
    ensures Maps(ids[row.name := row.id], buckets + [row])
  {
    hide NameOf;
    forall name | name in ids[row.name := row.id]
      ensures NameOf(buckets + [row], ids[row.name := row.id][name]) == Some(name)
    {
      NameOfAppend(buckets, row, ids[row.name := row.id][name]);
    }
  }

  lemma LastIsNew(buckets: seq<BucketRow>)
    requires Distinct(buckets) && buckets != []
    ensures var n := |buckets| - 1;
            && Distinct(buckets[..n]) && NameOf(buckets[..n], buckets[n].id).None?
            && forall b :: b in buckets[..n] ==> b.name != buckets[n].name
  {
    hide NameOf;
    NameOfFacts(buckets[..|buckets| - 1], buckets[|buckets| - 1].id);
  }

  lemma {:induction false} BucketIdsMap(buckets: seq<BucketRow>)
    requires Distinct(buckets)
    ensures Maps(BucketIds(buckets), buckets)
    ensures forall name :: name in BucketIds(buckets) ==> exists b :: b in buckets && b.name == name
  {
    if buckets != [] {
      var n := |buckets| - 1;
      LastIsNew(buckets);
      BucketIdsMap(buckets[..n]);
      assert buckets == buckets[..n] + [buckets[n]];
      hide Maps, Distinct, NameOf;
      MapsOneMore(BucketIds(buckets[..n]), buckets[..n], buckets[n]);
    }
  }

  lemma UpdateFacts(db: Db, ids: map<string, int>, id: int, meta: BucketMeta)
    requires Valid(db) && Maps(ids, db.buckets)
    ensures var db' := db.(buckets := UpdateMeta(db.buckets, id, meta));
            Valid(db') && Maps(ids, db'.buckets) && forall x :: NameOf(db'.buckets, x) == NameOf(db.buckets, x)
  {
    hide NameOf;
    var buckets' := UpdateMeta(db.buckets, id, meta);
    forall x ensures NameOf(buckets', x) == NameOf(db.buckets, x) {
      NameOfUpdate(db.buckets, id, meta, x);
    }
    assert forall i :: 0 <= i < |db.buckets| ==>
        db.buckets[i] in db.buckets && buckets'[i].id == db.buckets[i].id && buckets'[i].name == db.buckets[i].name;
  }

  lemma AppendFacts(db: Db, ids: map<string, int>, name: string, meta: BucketMeta)
    requires Valid(db) && Maps(ids, db.buckets) && name !in ids
    ensures var row := BucketRow(db.nextBucket, name, meta);
            var db' := db.(buckets := db.buckets + [row], nextBucket := db.nextBucket + 1);
            && Valid(db') && Maps(ids[name := row.id], db'.buckets)
            && forall x :: x < db.nextBucket ==> NameOf(db'.buckets, x) == NameOf(db.buckets, x)
  {
    hide NameOf;
    var row := BucketRow(db.nextBucket, name, meta);
    NameOfFacts(db.buckets, row.id);
    forall x | x < db.nextBucket ensures NameOf(db.buckets + [row], x) == NameOf(db.buckets, x) {
      NameOfAppend(db.buckets, row, x);
    }
    assert forall i :: 0 <= i < |db.buckets| ==> db.buckets[i] in db.buckets;
    MapsOneMore(ids, db.buckets, row);
  }

  lemma MergeBucketFacts(db: Db, ids: map<string, int>, out: Outcome, b: IncomingBucket)
    requires Valid(db) && Maps(ids, db.buckets)
    ensures var (db', ids', out') := MergeBucket(db, ids, out, b);
            && Valid(db') && Maps(ids', db'.buckets) && ids'.Keys == ids.Keys + {b.name}
            && db'.events == db.events && db'.nextEvent == db.nextEvent && db.nextBucket <= db'.nextBucket
            && forall id :: id < db.nextBucket ==> NameOf(db'.buckets, id) == NameOf(db.buckets, id)
  {
    hide Valid, Maps, NameOf, UpdateMeta;
    if b.name in ids { UpdateFacts(db, ids, ids[b.name], b.meta); } else { AppendFacts(db, ids, b.name, b.meta); }
  }

  function Names(bs: seq<IncomingBucket>): set<string> {
    set b | b in bs :: b.name
  }

  /** Bucket names stay unique; every event row keeps its bucket. */
  lemma {:induction false} MergeBucketsFacts(db: Db, ids: map<string, int>, out: Outcome, bs: seq<IncomingBucket>)
    requires Valid(db) && Maps(ids, db.buckets)
    ensures var (db', ids', out') := MergeBuckets(db, ids, out, bs);
            && Valid(db') && Maps(ids', db'.buckets) && ids'.Keys == ids.Keys + Names(bs)
            && db'.events == db.events && db.nextBucket <= db'.nextBucket
            && forall id :: id < db.nextBucket ==> NameOf(db'.buckets, id) == NameOf(db.buckets, id)
    decreases |bs|
  {
    hide Valid, Maps, NameOf, MergeBucket, Names;
    NamesCons(bs);
    if bs != [] {
      var (db', ids', out') := MergeBucket(db, ids, out, bs[0]);
      MergeBucketFacts(db, ids, out, bs[0]);
      MergeBucketsFacts(db', ids', out', bs[1..]);
    }
  }

  lemma NamesCons(bs: seq<IncomingBucket>)
    ensures Names(bs) == if bs == [] then {} else {bs[0].name} + Names(bs[1..])
  {
    if bs != [] { assert bs == [bs[0]] + bs[1..]; }
  }

  // ---- Adding the events ----

  /** What the database knows: the facts of the event rows that have a bucket. */
  ghost function Facts(db: Db): set<Fact> {
    set e | e in db.events && FactOf(db.buckets, e).Some? :: FactOf(db.buckets, e).value
  }

  /** No name goes on after another like a fingerprint does. */
  ghost predicate NoneExtends(names: set<string>) {
    forall a, b :: a in names && b in names && a != b ==> !Extends(a, b)
  }

  /** How a fact reads back once it is stored: a negative length as none. */
  function Clamped(f: Fact): Fact { f.(duration := Max(f.duration, 0)) }

  ghost function AllClamped(fs: set<Fact>): set<Fact> { set f | f in fs :: Clamped(f) }

  /** The facts that go in: those whose bucket is known. */
  ghost function Known(names: set<string>, fs: seq<Fact>): set<Fact> {
    set f | f in fs && f.bucket in names
  }

  /** `fps` are the fingerprints of the facts seen so far. */
  ghost predicate Covers(fps: set<string>, seen: set<Fact>) {
    && (forall f :: f in seen ==> Fingerprint(f) in fps)
    && (forall fp :: fp in fps ==> exists f :: f in seen && Fingerprint(f) == fp)
  }

  ghost predicate InBuckets(seen: set<Fact>, ids: map<string, int>) { forall f :: f in seen ==> f.bucket in ids }

  lemma NoCollision(names: set<string>, f: Fact, g: Fact)
    requires NoneExtends(names) && f.bucket in names && g.bucket in names && Fingerprint(f) == Fingerprint(g)
    ensures f == g
  {
    hide Extends, Fingerprint;
    if f.bucket == g.bucket {
      FingerprintInjective(f, g);
    } else {
      assert Collide(f, g, f.bucket, g.bucket);
      NamesCollideIff(f.bucket, g.bucket);
    }
  }

  lemma SeenAlready(fps: set<string>, seen: set<Fact>, ids: map<string, int>, f: Fact)
    requires Covers(fps, seen) && InBuckets(seen, ids) && NoneExtends(ids.Keys) && f.bucket in ids
    ensures Fingerprint(f) in fps <==> f in seen
  {
    if Fingerprint(f) in fps {
      var g :| g in seen && Fingerprint(g) == Fingerprint(f);
      NoCollision(ids.Keys, f, g);
    }
  }

  lemma FactsHaveBuckets(db: Db, ids: map<string, int>, f: Fact)
    requires Maps(ids, db.buckets) && f in Facts(db)
    ensures f.bucket in ids
  {
    var e :| e in db.events && FactOf(db.buckets, e) == Some(f);
    NameOfFacts(db.buckets, e.bucketrow);
  }

  /** `seen` is what the fingerprints stand for: the stored facts, and those of
      this import as they came. */
  lemma AddEventFacts(db: Db, ids: map<string, int>, fps: set<string>, out: Outcome, f: Fact, seen: set<Fact>)
    requires Valid(db) && Maps(ids, db.buckets) && NoneExtends(ids.Keys)
    requires Covers(fps, seen) && InBuckets(seen, ids) && AllClamped(seen) == Facts(db)
    ensures var (db', fps', out') := AddEvent(db, ids, fps, out, f);
            var seen' := seen + if f.bucket in ids then {f} else {};
            && Valid(db') && db'.buckets == db.buckets && db.events <= db'.events
            && Covers(fps', seen') && InBuckets(seen', ids) && AllClamped(seen') == Facts(db')
            && (db' == db <==> f.bucket in ids ==> f in seen)
  {
    hide Valid, Fingerprint, NoneExtends, FactOf;
    var (db', fps', out') := AddEvent(db, ids, fps, out, f);
    if f.bucket in ids {
      SeenAlready(fps, seen, ids, f);
      if f !in seen {
        AppendedFacts(db, ids, f);
        assert Covers(fps + {Fingerprint(f)}, seen + {f});
      } else {
        assert seen + {f} == seen;
      }
    }
  }

  lemma AppendedFacts(db: Db, ids: map<string, int>, f: Fact)
    requires Valid(db) && Maps(ids, db.buckets) && f.bucket in ids
    ensures var e := EventRow(db.nextEvent, ids[f.bucket], f.start, f.start + f.duration, f.data);
            var db' := db.(events := db.events + [e], nextEvent := db.nextEvent + 1);
            Valid(db') && Facts(db') == Facts(db) + {Clamped(f)}
  {
    hide Valid;
    NewEventIsValid(db, ids, f);
    var e := EventRow(db.nextEvent, ids[f.bucket], f.start, f.start + f.duration, f.data);
    assert FactOf(db.buckets, e) == Some(Clamped(f));
    hide FactOf;
    assert forall x :: x in db.events + [e] <==> x == e || x in db.events;
  }

  lemma NewEventIsValid(db: Db, ids: map<string, int>, f: Fact)
    requires Valid(db) && Maps(ids, db.buckets) && f.bucket in ids
    ensures var e := EventRow(db.nextEvent, ids[f.bucket], f.start, f.start + f.duration, f.data);
            Valid(db.(events := db.events + [e], nextEvent := db.nextEvent + 1))
  {
    NameOfFacts(db.buckets, ids[f.bucket]);
  }

  lemma {:induction false} AddEventsFacts(db: Db, ids: map<string, int>, fps: set<string>, out: Outcome, fs: seq<Fact>,
      seen: set<Fact>)
    requires Valid(db) && Maps(ids, db.buckets) && NoneExtends(ids.Keys)
    requires Covers(fps, seen) && InBuckets(seen, ids) && AllClamped(seen) == Facts(db)
    ensures var (db', fps', out') := AddEvents(db, ids, fps, out, fs);
            && Valid(db') && db'.buckets == db.buckets && db.events <= db'.events
            && Facts(db') == AllClamped(seen + Known(ids.Keys, fs))
            && (db'.events == db.events <==> Known(ids.Keys, fs) <= seen)
    decreases |fs|
  {
    hide Maps, Covers, AddEvent, Facts, Valid, NoneExtends, AllClamped, InBuckets;
    if fs == [] {
      assert seen + Known(ids.Keys, fs) == seen;
    } else {
      var f, rest := fs[0], fs[1..];
      assert fs == [f] + rest;
      var (db', fps', out') := AddEvent(db, ids, fps, out, f);
      var seen' := seen + if f.bucket in ids then {f} else {};
      AddEventFacts(db, ids, fps, out, f, seen);
      AddEventGrows(db, ids, fps, out, f);
      AddEventsFacts(db', ids, fps', out', rest, seen');
      assert seen + Known(ids.Keys, fs) == seen' + Known(ids.Keys, rest);
    }
  }

  lemma AddEventGrows(db: Db, ids: map<string, int>, fps: set<string>, out: Outcome, f: Fact)
    ensures var db' := AddEvent(db, ids, fps, out, f).0; db' == db || |db'.events| > |db.events|
  {}

  lemma FingerprintsCover(db: Db, db': Db)
    requires db'.events == db.events
    requires forall e :: e in db.events ==> FactOf(db'.buckets, e) == FactOf(db.buckets, e)
    ensures Facts(db') == Facts(db) && Covers(Fingerprints(db.buckets, db.events), Facts(db'))
  {
    hide FactOf, Fingerprint;
    var fps := Fingerprints(db.buckets, db.events);
    forall fp | fp in fps ensures exists f :: f in Facts(db) && Fingerprint(f) == fp {
      var e :| e in db.events && FactOf(db.buckets, e).Some? && Fingerprint(FactOf(db.buckets, e).value) == fp;
      assert FactOf(db.buckets, e).value in Facts(db);
    }
  }

  ghost function StoredNames(buckets: seq<BucketRow>): set<string> {
    set b | b in buckets :: b.name
  }

  ghost function KnownNames(db: Db, bs: seq<IncomingBucket>): set<string> {
    StoredNames(db.buckets) + Names(bs)
  }

  /** What the first phase hands to the second. */
  lemma MergedBuckets(db: Db, bs: seq<IncomingBucket>)
    requires Valid(db)
    ensures var (db1, ids, _) := MergeBuckets(db, BucketIds(db.buckets), NOTHING_DONE, bs);
            && Valid(db1) && Maps(ids, db1.buckets) && ids.Keys == KnownNames(db, bs)
            && db1.events == db.events && Facts(db1) == Facts(db)
            && Covers(Fingerprints(db.buckets, db.events), Facts(db1))
  {
    BucketIdsMap(db.buckets);
    MergeBucketsFacts(db, BucketIds(db.buckets), NOTHING_DONE, bs);
    FingerprintsCover(db, MergeBuckets(db, BucketIds(db.buckets), NOTHING_DONE, bs).0);
  }

  lemma MapsNames(ids: map<string, int>, buckets: seq<BucketRow>)
    requires Maps(ids, buckets)
    ensures StoredNames(buckets) == ids.Keys
  {
    forall name | name in ids ensures exists b :: b in buckets && b.name == name {
      NameOfFacts(buckets, ids[name]);
    }
  }

  /** The import, as a set of facts, is a union with those of known buckets. */
  ghost predicate IsUnion(db: Db, bs: seq<IncomingBucket>, fs: seq<Fact>) {
    Facts(Imported(db, bs, fs).0) == Facts(db) + AllClamped(Known(KnownNames(db, bs), fs))
  }

  lemma FactsAreRead(db: Db, ids: map<string, int>)
    requires Maps(ids, db.buckets)
    ensures InBuckets(Facts(db), ids) && AllClamped(Facts(db)) == Facts(db)
  {
    hide Maps;
    forall f | f in Facts(db) ensures f.bucket in ids && Clamped(f) == f { FactsHaveBuckets(db, ids, f); }
  }

  lemma ClampedUnion(a: set<Fact>, b: set<Fact>)
    ensures AllClamped(a + b) == AllClamped(a) + AllClamped(b)
  {}

  /** If no known bucket name extends another, the import is a set union: what the
      database knows afterwards is what it knew before plus every incoming fact of a
      known bucket. Existing event rows stay, in place, and names stay unique. */
  lemma ImportIsUnion(db: Db, bs: seq<IncomingBucket>, fs: seq<Fact>)
    requires Valid(db) && NoneExtends(KnownNames(db, bs))
    ensures var db' := Imported(db, bs, fs).0;
            && Valid(db') && db.events <= db'.events && IsUnion(db, bs, fs)
            && StoredNames(db'.buckets) == KnownNames(db, bs)
            && (db'.events == db.events <==> Known(KnownNames(db, bs), fs) <= Facts(db))
  {
    hide Valid, Maps, Covers, MergeBuckets, AddEvents, Fingerprints, Facts, NoneExtends, InBuckets, AllClamped, Known;
    MergedBuckets(db, bs);
    var (db1, ids, out1) := MergeBuckets(db, BucketIds(db.buckets), NOTHING_DONE, bs);
    FactsAreRead(db1, ids);
    AddEventsFacts(db1, ids, Fingerprints(db.buckets, db.events), out1, fs, Facts(db1));
    ClampedUnion(Facts(db1), Known(ids.Keys, fs));
    MapsNames(ids, db1.buckets);
  }

  lemma {:induction false} LengthBound(texts: set<string>) returns (n: nat)
    ensures forall x :: x in texts ==> |x| <= n
    decreases texts
  {
    if texts == {} {
      n := 0;
    } else {
      var x :| x in texts;
      var m := LengthBound(texts - {x});
      n := if |x| > m then |x| else m;
    }
  }

  /** Of two new events with one fingerprint, the second is dropped. */
  lemma SecondIsDropped(db: Db, ids: map<string, int>, fps: set<string>, out: Outcome, f: Fact, g: Fact)
    requires Valid(db) && Maps(ids, db.buckets) && Covers(fps, Facts(db))
    requires f.bucket in ids && g.bucket != f.bucket && Fingerprint(g) == Fingerprint(f) && Fingerprint(f) !in fps
    ensures g !in Facts(AddEvents(db, ids, fps, out, [f, g]).0)
  {
    hide Valid, Maps, Facts, Fingerprint;
    AppendedFacts(db, ids, f);
    var (db1, fps1, out1) := AddEvent(db, ids, fps, out, f);
    assert [f, g][1..] == [g] && [g][1..] == [];
    assert AddEvents(db1, ids, fps1, out1, [g]).0 == db1;
    assert AddEvents(db, ids, fps, out, [f, g]).0 == db1;
  }

  lemma ExtendingNameLosesEvent(db: Db, bs: seq<IncomingBucket>, a: string, b: string) returns (fs: seq<Fact>)
    requires Valid(db) && a in KnownNames(db, bs) && b in KnownNames(db, bs) && a != b && Extends(a, b)
    ensures !IsUnion(db, bs, fs)
  {
    hide Valid, Maps, MergeBuckets, AddEvents, Fingerprints, Facts, Extends, KnownNames, Fingerprint;
    MergedBuckets(db, bs);
    var (db1, ids, out1) := MergeBuckets(db, BucketIds(db.buckets), NOTHING_DONE, bs);
    var fps := Fingerprints(db.buckets, db.events);
    var n := LengthBound(fps);
    var f, g := ExtendingNamesCollide(a, b, seq(n + 1, _ => 'x'));
    fs := [f, g];
    SecondIsDropped(db1, ids, fps, out1, f, g);
    assert fs[1] == g && g in fs && g in Known(KnownNames(db, bs), fs);
    assert Clamped(g) == g && g in AllClamped(Known(KnownNames(db, bs), fs));
  }

  /** The condition is exact: it holds if and only if every import into this
      database, after these buckets, is a union. */
  lemma ImportIsUnionIff(db: Db, bs: seq<IncomingBucket>)
    requires Valid(db)
    ensures (forall fs :: IsUnion(db, bs, fs)) <==> NoneExtends(KnownNames(db, bs))
  {
    hide Valid, IsUnion, KnownNames, Extends;
    if NoneExtends(KnownNames(db, bs)) {
      forall fs ensures IsUnion(db, bs, fs) { ImportIsUnion(db, bs, fs); }
    } else {
      var a, b :| a in KnownNames(db, bs) && b in KnownNames(db, bs) && a != b && Extends(a, b);
      var fs := ExtendingNameLosesEvent(db, bs, a, b);
    }
  }

  // ---- Importing again ----

  ghost predicate AllFound(names: set<string>, fs: seq<Fact>, fps: set<string>) {
    forall f :: f in fs && f.bucket in names ==> Fingerprint(f) in fps
  }

  /** `fps` are the fingerprints of `added`, the stored events as they came in:
      those of before, and some that this import brought. */
  ghost predicate Stands(db: Db, fps: set<string>, added: set<Fact>) {
    Covers(fps, added) && AllClamped(added) == Facts(db)
  }

  lemma AddEventStands(db: Db, ids: map<string, int>, fps: set<string>, out: Outcome, f: Fact, added: set<Fact>)
    requires Valid(db) && Maps(ids, db.buckets) && Stands(db, fps, added)
    ensures var (db', fps', out') := AddEvent(db, ids, fps, out, f);
            && Valid(db') && db'.buckets == db.buckets && fps <= fps' && (f.bucket in ids ==> Fingerprint(f) in fps')
            && Stands(db', fps', if f.bucket in ids && Fingerprint(f) !in fps then added + {f} else added)
  {
    hide Valid, Fingerprint, Maps, Facts;
    if f.bucket in ids && Fingerprint(f) !in fps {
      AppendedFacts(db, ids, f);
      ClampedUnion(added, {f});
      assert AllClamped({f}) == {Clamped(f)};
    }
  }

  lemma {:induction false} AddEventsStand(db: Db, ids: map<string, int>, fps: set<string>, out: Outcome, fs: seq<Fact>,
      added: set<Fact>)
    returns (added': set<Fact>)
    requires Valid(db) && Maps(ids, db.buckets) && Stands(db, fps, added)
    ensures var (db', fps', out') := AddEvents(db, ids, fps, out, fs);
            && Valid(db') && db'.buckets == db.buckets && Stands(db', fps', added') && fps <= fps'
            && AllFound(ids.Keys, fs, fps') && added' <= added + Known(ids.Keys, fs)
    decreases |fs|
  {
    hide Valid, Fingerprint, Maps, Stands, AddEvent;
    added' := added;
    if fs != [] {
      assert fs == [fs[0]] + fs[1..];
      AddEventStands(db, ids, fps, out, fs[0], added);
      var (db', fps', out') := AddEvent(db, ids, fps, out, fs[0]);
      added' := if fs[0].bucket in ids && Fingerprint(fs[0]) !in fps then added + {fs[0]} else added;
      added' := AddEventsStand(db', ids, fps', out', fs[1..], added');
    }
  }

  lemma {:induction false} FoundIsNotAdded(db: Db, ids: map<string, int>, fps: set<string>, out: Outcome, fs: seq<Fact>)
    ensures AllFound(ids.Keys, fs, fps) ==> AddEvents(db, ids, fps, out, fs).0 == db
    ensures !AllFound(ids.Keys, fs, fps) ==> |AddEvents(db, ids, fps, out, fs).0.events| > |db.events|
    decreases |fs|
  {
    hide Fingerprint;
    if fs != [] {
      assert fs == [fs[0]] + fs[1..];
      var (db', fps', out') := AddEvent(db, ids, fps, out, fs[0]);
      FoundIsNotAdded(db', ids, fps', out', fs[1..]);
    }
  }

  /** Some stored event has the fingerprint. */
  ghost predicate IsStored(db: Db, fp: string) { exists g :: g in Facts(db) && Fingerprint(g) == fp }

  /** What one import leaves for the next: of its events, the next one finds all if
      it finds those of negative length. */
  lemma FoundAfterImport(db: Db, bs: seq<IncomingBucket>, fs: seq<Fact>)
    requires Valid(db)
    ensures var db' := Imported(db, bs, fs).0;
            && Valid(db') && StoredNames(db'.buckets) == KnownNames(db, bs)
            && ((forall f :: f in Known(KnownNames(db, bs), fs) && f.duration < 0 ==> IsStored(db', Fingerprint(f))) ==>
                forall f :: f in Known(KnownNames(db, bs), fs) ==> IsStored(db', Fingerprint(f)))
  {
    hide Valid, Maps, MergeBuckets, AddEvents, Fingerprints, Facts, Fingerprint;
    MergedBuckets(db, bs);
    var (db1, ids, out1) := MergeBuckets(db, BucketIds(db.buckets), NOTHING_DONE, bs);
    var fps := Fingerprints(db.buckets, db.events);
    FactsAreRead(db1, ids);
    LengthsAreRead(db1);
    var added := AddEventsStand(db1, ids, fps, out1, fs, Facts(db1));
    MapsNames(ids, db1.buckets);
    var db' := Imported(db, bs, fs).0;
    forall f | f in Known(KnownNames(db, bs), fs)
      ensures IsStored(db', Fingerprint(f)) ||
              exists h :: h in Known(KnownNames(db, bs), fs) && h.duration < 0 && Fingerprint(h) == Fingerprint(f)
    {
      assert Fingerprint(f) in AddEvents(db1, ids, fps, out1, fs).1;
      var h :| h in added && Fingerprint(h) == Fingerprint(f);
      assert h.duration >= 0 ==> Clamped(h) == h;
    }
  }

  /** For any database and snapshot: importing it again adds no event if and only if
      each of its events of negative length, in a known bucket, has the fingerprint
      of a stored event (which then is one of another bucket: see NegativeIsAddedAgain). */
  lemma SecondImportAddsNothingIff(db: Db, bs: seq<IncomingBucket>, fs: seq<Fact>)
    requires Valid(db)
    ensures var db' := Imported(db, bs, fs).0;
            Imported(db', bs, fs).0.events == db'.events <==>
              forall f :: f in Known(KnownNames(db, bs), fs) && f.duration < 0 ==> IsStored(db', Fingerprint(f))
  {
    hide Valid, Maps, MergeBuckets, AddEvents, Fingerprints, Facts, Fingerprint, StoredNames;
    FoundAfterImport(db, bs, fs);
    var db' := Imported(db, bs, fs).0;
    MergedBuckets(db', bs);
    var (db1, ids, out1) := MergeBuckets(db', BucketIds(db'.buckets), NOTHING_DONE, bs);
    var fps := Fingerprints(db'.buckets, db'.events);
    FoundIsNotAdded(db1, ids, fps, out1, fs);
    assert forall fp :: fp in fps <==> IsStored(db', fp);
  }

  /** So with lengths that are not negative it adds none, whatever the names. */
  lemma SecondImportAddsNothing(db: Db, bs: seq<IncomingBucket>, fs: seq<Fact>)
    requires Valid(db) && forall f :: f in fs && f.bucket in KnownNames(db, bs) ==> f.duration >= 0
    ensures var db' := Imported(db, bs, fs).0; Imported(db', bs, fs).0.events == db'.events
  {
    hide Valid, Imported, KnownNames;
    SecondImportAddsNothingIff(db, bs, fs);
  }

  /** A negative length reads back as none. Where no known name extends another,
      such an event of a known bucket is therefore added again by every import. */
  lemma NegativeIsAddedAgain(db: Db, bs: seq<IncomingBucket>, fs: seq<Fact>, f: Fact)
    requires Valid(db) && NoneExtends(KnownNames(db, bs)) && f in Known(KnownNames(db, bs), fs) && f.duration < 0
    ensures var db' := Imported(db, bs, fs).0; Imported(db', bs, fs).0.events != db'.events
  {
    var db' := Imported(db, bs, fs).0;
    FoundAfterImport(db, bs, fs);
    SecondImportAddsNothingIff(db, bs, fs);
    LengthsAreRead(db');
    FactsAreNamed(db');
    hide Valid, Imported, Extends, Fingerprint, Facts;
    if g :| g in Facts(db') && Fingerprint(g) == Fingerprint(f) {
      NoCollision(KnownNames(db, bs), f, g);
    }
  }

  lemma FactsAreNamed(db: Db)
    ensures forall f :: f in Facts(db) ==> f.bucket in StoredNames(db.buckets)
  {
    forall e | e in db.events && FactOf(db.buckets, e).Some?
      ensures FactOf(db.buckets, e).value.bucket in StoredNames(db.buckets)
    {
      NamesAreStored(db.buckets, e.bucketrow);
    }
  }

  lemma {:induction false} NamesAreStored(buckets: seq<BucketRow>, id: int)
    ensures NameOf(buckets, id).Some? ==> NameOf(buckets, id).value in StoredNames(buckets)
  {
    if buckets != [] {
      NamesAreStored(buckets[1..], id);
      assert buckets == [buckets[0]] + buckets[1..];
    }
  }

  lemma LengthsAreRead(db: Db)
    ensures forall f :: f in Facts(db) ==> f.duration >= 0
  {}
}
