/** Runs of imports: when the order in which versions arrive does not matter. */
module MergeRuns {
  import opened Events
  import opened Conflict
  import opened Text
  import opened Merge

  function RunImports(rows: Rows, batches: seq<seq<Row>>): Rows
    decreases |batches|
  {
    if batches == [] then rows else RunImports(Imported(rows, batches[0]).0, batches[1..])
  }

  function AsSet(v: Option<Version>): set<Version> {
    if v.Some? then {v.value} else {}
  }

  /** Every version of `k` that the table held or a batch brought. */
  function Seen(rows: Rows, batches: seq<seq<Row>>, k: string): set<Version> {
    AsSet(Lookup(rows.all, k)) + Brought(batches, k)
  }

  function Brought(batches: seq<seq<Row>>, k: string): set<Version> {
    if batches == [] then {} else AsSet(Incoming(batches[0], k)) + Brought(batches[1..], k)
  }

  ghost predicate UniqueBatches(batches: seq<seq<Row>>) {
    forall b :: b in batches ==> UniqueBatch(b)
  }

  /** The key's version after the run, or none. */
  function Ends(rows: Rows, batches: seq<seq<Row>>, k: string): Option<Version> {
    Lookup(RunImports(rows, batches).all, k)
  }

  // ---- A payload that prevails ----

  /** Versions of other payloads than that of `p`, one after the other as imports
      can replace them: each newer than the one before, and with another payload. */
  ghost predicate Climb(vs: set<Version>, p: Version, c: seq<Version>) {
    && c != []
    && (forall x :: x in c ==> x in vs && !x.Same(p))
    && (forall i :: 0 < i < |c| ==> c[i].Newer(c[i - 1]) && !c[i].Same(c[i - 1]))
  }

  ghost predicate Tops(v: Version, c: seq<Version>) { forall x :: x in c ==> v.Newer(x) }

  /** No version of another payload is newer than one of `p`'s. */
  ghost predicate Stays(vs: set<Version>, p: Version) {
    forall v, x :: v in vs && x in vs && v.Same(p) && !x.Same(p) ==> !x.Newer(v)
  }

  ghost predicate SomeTops(vs: set<Version>, p: Version, c: seq<Version>) {
    exists v :: v in vs && v.Same(p) && Tops(v, c)
  }

  /** `p`'s payload is never replaced, and replaces whatever others replace each
      other: for each climb of theirs one of its versions is newer than all of it. */
  ghost predicate Prevails(vs: set<Version>, p: Version) {
    p in vs && Stays(vs, p) && forall c :: Climb(vs, p, c) ==> SomeTops(vs, p, c)
  }

  ghost predicate Decided(vs: set<Version>) { vs == {} || exists p :: Prevails(vs, p) }

  /** `stored` has `p`'s payload, or ends the climb `c` so far, and whatever tops
      that is still to come. */
  ghost predicate OnTheWay(all: set<Version>, p: Version, stored: Option<Version>, c: seq<Version>,
      coming: set<Version>)
  {
    match stored
    case None => c == [] && forall v :: v in all ==> v in coming
    case Some(r) =>
      && r in all
      && (|| r.Same(p)
          || (&& Climb(all, p, c) && r == c[|c| - 1]
              && forall v :: v in all && v.Same(p) && Tops(v, c) ==> v in coming))
  }

  lemma ClimbOn(all: set<Version>, p: Version, c: seq<Version>, x: Version)
    requires x in all && !x.Same(p) && Climb(all, p, c) && x.Newer(c[|c| - 1]) && !x.Same(c[|c| - 1])
    ensures Climb(all, p, c + [x]) && forall v :: Tops(v, c + [x]) <==> Tops(v, c) && v.Newer(x)
  {
    assert forall y :: y in c + [x] <==> y in c || y == x;
  }

  /** One import: the climb goes on, or ends with `p`'s payload. */
  lemma StillOnTheWay(all: set<Version>, p: Version, stored: Option<Version>, c: seq<Version>, i: Version,
      coming: set<Version>)
    returns (c': seq<Version>)
    requires Stays(all, p) && i in all && OnTheWay(all, p, stored, c, coming + {i})
    ensures OnTheWay(all, p, Resolve(stored, Some(i)), c', coming)
  {
    NewerTrichotomy(i.rev, i.rev);
    hide IncomingNewer;
    if stored.None? {
      c' := [i];
    } else if !stored.value.Same(p) && !i.Same(p) && !stored.value.Same(i) && i.Newer(stored.value) {
      ClimbOn(all, p, c, i);
      c' := c + [i];
    } else {
      assert !stored.value.Same(p) ==> stored.value in c;
      c' := c;
    }
  }

  lemma Arrived(all: set<Version>, p: Version, stored: Option<Version>, c: seq<Version>)
    requires Prevails(all, p) && OnTheWay(all, p, stored, c, {})
    ensures stored.Some? && stored.value.Same(p)
  {
    hide IncomingNewer, Tops;
    if Climb(all, p, c) { assert SomeTops(all, p, c); }
  }

  lemma {:induction false} PrevailsOnTheWay(all: set<Version>, p: Version, rows: Rows, batches: seq<seq<Row>>,
      k: string, c: seq<Version>)
    requires UniqueKeys(rows.all) && UniqueBatches(batches) && Prevails(all, p)
    requires Brought(batches, k) <= all && OnTheWay(all, p, Lookup(rows.all, k), c, Brought(batches, k))
    ensures Ends(rows, batches, k).Some? && Ends(rows, batches, k).value.Same(p)
    decreases |batches|
  {
    hide UniqueKeys, UniqueBatch, Imported, Lookup, Incoming, Resolve, IncomingNewer, Climb, Tops, Stays;
    if batches == [] {
      Arrived(all, p, Lookup(rows.all, k), c);
    } else {
      var batch, rest := batches[0], batches[1..];
      assert batch in batches;
      ImportByKey(rows, batch, k);
      var i, c' := Incoming(batch, k), c;
      if i.Some? {
        assert Brought(batches, k) == Brought(rest, k) + {i.value};
        c' := StillOnTheWay(all, p, Lookup(rows.all, k), c, i.value, Brought(rest, k));
      } else {
        NothingIncoming(batches, k);
        ResolveNone(Lookup(rows.all, k));
      }
      PrevailsOnTheWay(all, p, Imported(rows, batch).0, rest, k, c');
    }
  }

  lemma NothingIncoming(batches: seq<seq<Row>>, k: string)
    requires batches != [] && Incoming(batches[0], k).None?
    ensures Brought(batches, k) == Brought(batches[1..], k)
  {}

  lemma ResolveNone(stored: Option<Version>)
    ensures Resolve(stored, None) == stored
  {}

  /** A payload that prevails among the versions of a key is what any run of
      unique-key batches that sees them ends with, from any table: whether
      timestamps parse, tie, or how often it was edited does not matter. */
  lemma PrevailingWins(rows: Rows, batches: seq<seq<Row>>, k: string, p: Version)
    requires UniqueKeys(rows.all) && UniqueBatches(batches) && Prevails(Seen(rows, batches, k), p)
    ensures Ends(rows, batches, k).Some? && Ends(rows, batches, k).value.Same(p)
    ensures Ends(rows, batches, k).value in Seen(rows, batches, k)
  {
    var all, stored := Seen(rows, batches, k), Lookup(rows.all, k);
    EndsSeen(rows, batches, k);
    hide UniqueKeys, UniqueBatches, RunImports, Lookup, Prevails, Brought;
    var c := if stored.Some? then [stored.value] else [];
    if stored.Some? { NewerTrichotomy(stored.value.rev, stored.value.rev); }
    hide IncomingNewer;
    assert OnTheWay(all, p, stored, c, Brought(batches, k));
    PrevailsOnTheWay(all, p, rows, batches, k, c);
  }

  lemma {:induction false} EndsSeen(rows: Rows, batches: seq<seq<Row>>, k: string)
    requires UniqueKeys(rows.all) && UniqueBatches(batches)
    ensures AsSet(Ends(rows, batches, k)) <= Seen(rows, batches, k)
    decreases |batches|
  {
    hide UniqueKeys, UniqueBatch, Imported, Lookup, Incoming;
    if batches != [] {
      assert batches[0] in batches;
      ImportByKey(rows, batches[0], k);
      hide Resolve;
      ResolveSees(Lookup(rows.all, k), Incoming(batches[0], k));
      EndsSeen(Imported(rows, batches[0]).0, batches[1..], k);
    }
  }

  lemma ResolveSees(stored: Option<Version>, incoming: Option<Version>)
    ensures AsSet(Resolve(stored, incoming)) <= AsSet(stored) + AsSet(incoming)
  {}

  lemma NoVersion(v: Option<Version>)
    ensures AsSet(v) == {} <==> v.None?
  {
    if v.Some? { assert v.value in AsSet(v); }
  }

  lemma {:induction false} NothingSeen(rows: Rows, batches: seq<seq<Row>>, k: string)
    requires UniqueKeys(rows.all) && UniqueBatches(batches) && Seen(rows, batches, k) == {}
    ensures Ends(rows, batches, k).None?
    decreases |batches|
  {
    hide UniqueKeys, UniqueBatch, Imported, Lookup, Incoming;
    if batches != [] {
      assert batches[0] in batches;
      ImportByKey(rows, batches[0], k);
      var l, i := Lookup(rows.all, k), Incoming(batches[0], k);
      assert AsSet(l) <= Seen(rows, batches, k) && AsSet(i) <= Seen(rows, batches, k);
      NoVersion(l);
      NoVersion(i);
      NothingSeen(Imported(rows, batches[0]).0, batches[1..], k);
    } else {
      NoVersion(Lookup(rows.all, k));
    }
  }

  /** So neither the order of the imports, nor how rows are grouped into batches,
      nor repeating any of them, matters: two runs that saw the same versions of a
      key, from whatever tables, end with the same payload for it. */
  lemma ImportOrderDoesNotMatter(rows1: Rows, batches1: seq<seq<Row>>, rows2: Rows, batches2: seq<seq<Row>>, k: string)
    requires UniqueKeys(rows1.all) && UniqueBatches(batches1) && UniqueKeys(rows2.all) && UniqueBatches(batches2)
    requires Seen(rows1, batches1, k) == Seen(rows2, batches2, k) && Decided(Seen(rows1, batches1, k))
    ensures SamePayload(Ends(rows1, batches1, k), Ends(rows2, batches2, k))
  {
    hide UniqueKeys, UniqueBatches, Ends, Seen, Prevails;
    if Seen(rows1, batches1, k) == {} {
      NothingSeen(rows1, batches1, k);
      NothingSeen(rows2, batches2, k);
    } else {
      var p :| Prevails(Seen(rows1, batches1, k), p);
      PrevailingWins(rows1, batches1, k, p);
      PrevailingWins(rows2, batches2, k, p);
    }
  }

  /** In particular two imports commute, and doing either again changes no payload. */
  lemma ImportsCommute(rows: Rows, a: seq<Row>, b: seq<Row>, k: string)
    requires UniqueKeys(rows.all) && UniqueBatch(a) && UniqueBatch(b) && Decided(Seen(rows, [a, b], k))
    ensures SamePayload(Ends(rows, [a, b], k), Ends(rows, [b, a, b, a], k))
  {
    hide UniqueKeys, UniqueBatch, Ends, Decided;
    assert [b, a, b, a][1..] == [a, b, a] && [a, b, a][1..] == [b, a];
    assert [a, b][1..] == [b] && [b, a][1..] == [a] && [b][1..] == [] && [a][1..] == [];
    assert Brought([a], k) == AsSet(Incoming(a, k)) && Brought([b], k) == AsSet(Incoming(b, k));
    assert Brought([a, b, a], k) == AsSet(Incoming(a, k)) + AsSet(Incoming(b, k)) by {
      assert Brought([b, a], k) == AsSet(Incoming(b, k)) + AsSet(Incoming(a, k));
    }
    assert Seen(rows, [a, b], k) == Seen(rows, [b, a, b, a], k);
    ImportOrderDoesNotMatter(rows, [a, b], rows, [b, a, b, a], k);
  }

  // ---- Without one, the order does matter ----

  /** The versions, one import after the other, each in a batch of its own. */
  function OneByOne(k: string, versions: seq<Version>): (batches: seq<seq<Row>>)
    ensures |batches| == |versions|
  {
    seq(|versions|, i requires 0 <= i < |versions| => [Row(0, k, versions[i])])
  }

  function Settle(stored: Option<Version>, versions: seq<Version>): Option<Version>
    decreases |versions|
  {
    if versions == [] then stored else Settle(Resolve(stored, Some(versions[0])), versions[1..])
  }

  const EMPTY := Rows([], 1)

  lemma {:induction false} OneByOneSettles(rows: Rows, k: string, versions: seq<Version>)
    requires UniqueKeys(rows.all) && !Blank(k)
    ensures UniqueBatches(OneByOne(k, versions))
    ensures Ends(rows, OneByOne(k, versions), k) == Settle(Lookup(rows.all, k), versions)
    ensures Brought(OneByOne(k, versions), k) == set v | v in versions
    decreases |versions|
  {
    hide UniqueKeys, Imported, Lookup, Resolve, Blank;
    var batches := OneByOne(k, versions);
    if versions != [] {
      var batch := [Row(0, k, versions[0])];
      assert batches[0] == batch && batches[1..] == OneByOne(k, versions[1..]);
      assert Key(batch[0]) == k && Incoming(batch, k) == Some(versions[0]) && UniqueBatch(batch);
      ImportByKey(rows, batch, k);
      OneByOneSettles(Imported(rows, batch).0, k, versions[1..]);
      assert versions == [versions[0]] + versions[1..];
      assert forall b :: b in batches ==> b == batch || b in batches[1..];
    }
  }

  lemma {:induction false} Listed(vs: set<Version>) returns (s: seq<Version>)
    ensures forall v :: v in s <==> v in vs
    decreases vs
  {
    if vs == {} {
      s := [];
    } else {
      var v :| v in vs;
      var rest := Listed(vs - {v});
      s := [v] + rest;
    }
  }

  lemma {:induction false} SettleConcat(stored: Option<Version>, a: seq<Version>, b: seq<Version>)
    ensures Settle(stored, a + b) == Settle(Settle(stored, a), b)
    decreases |a|
  {
    hide Resolve;
    if a == [] {
      assert a + b == b;
    } else {
      assert (a + b)[1..] == a[1..] + b;
      SettleConcat(Resolve(stored, Some(a[0])), a[1..], b);
    }
  }

  /** Versions with the payload that is stored, or not newer, are skipped. */
  lemma {:induction false} SkippedAll(v: Version, versions: seq<Version>)
    requires forall w :: w in versions ==> w.Same(v) || !w.Newer(v)
    ensures Settle(Some(v), versions) == Some(v)
    decreases |versions|
  {
    if versions != [] {
      assert versions[0] in versions && Resolve(Some(v), Some(versions[0])) == Some(v);
      SkippedAll(v, versions[1..]);
    }
  }

  lemma {:induction false} OthersStay(p: Version, stored: Version, versions: seq<Version>)
    requires !stored.Same(p) && forall w :: w in versions ==> !w.Same(p)
    ensures Settle(Some(stored), versions).Some? && !Settle(Some(stored), versions).value.Same(p)
    decreases |versions|
  {
    if versions != [] {
      assert versions[0] in versions;
      OthersStay(p, Resolve(Some(stored), Some(versions[0])).value, versions[1..]);
    }
  }

  lemma {:induction false} SettledIsPresented(stored: Option<Version>, versions: seq<Version>)
    requires stored.Some? || versions != []
    ensures Settle(stored, versions).Some?
    ensures Settle(stored, versions) == stored || Settle(stored, versions).value in versions
    decreases |versions|
  {
    if versions != [] {
      SettledIsPresented(Resolve(stored, Some(versions[0])), versions[1..]);
      assert versions == [versions[0]] + versions[1..];
    }
  }

  /** One version, then others that leave it in place. */
  lemma TakenAndKept(stored: Option<Version>, v: Version, skipped: seq<Version>)
    requires Resolve(stored, Some(v)) == Some(v) && forall w :: w in skipped ==> w.Same(v) || !w.Newer(v)
    ensures Settle(stored, [v] + skipped) == Some(v)
  {
    SkippedAll(v, skipped);
    assert ([v] + skipped)[1..] == skipped;
  }

  lemma TakenAndOthers(p: Version, stored: Option<Version>, x: Version, others: seq<Version>)
    requires Resolve(stored, Some(x)) == Some(x) && !x.Same(p) && forall w :: w in others ==> !w.Same(p)
    ensures Settle(stored, [x] + others).Some? && !Settle(stored, [x] + others).value.Same(p)
  {
    OthersStay(p, x, others);
    assert ([x] + others)[1..] == others;
  }

  /** If one of `w`'s versions is older than some `x`: it comes first, then its
      equals, which are skipped, then `x`, then the rest. */
  lemma ReplacingOrder(vs: set<Version>, w: Version, v: Version, x: Version) returns (s: seq<Version>)
    requires v in vs && x in vs && v.Same(w) && !x.Same(w) && x.Newer(v)
    ensures (set y | y in s) == vs && Settle(None, s).Some? && !Settle(None, s).value.Same(w)
  {
    hide IncomingNewer;
    var equals := Listed(set y | y in vs && y.Same(w));
    var others := Listed(set y | y in vs && !y.Same(w));
    s := [v] + equals + ([x] + others);
    SettleConcat(None, [v] + equals, [x] + others);
    TakenAndKept(None, v, equals);
    TakenAndOthers(w, Some(v), x, others);
    assert forall y :: y in s <==> y in vs;
  }

  /** The climb, each step followed by those of `w`'s versions that it survives. */
  lemma {:induction false} ClimbingOrder(vs: set<Version>, w: Version, c: seq<Version>) returns (s: seq<Version>)
    requires Climb(vs, w, c)
    ensures Settle(None, s) == Some(c[|c| - 1]) && forall y :: y in s ==> y in vs
    ensures forall v :: v in vs && v.Same(w) && !Tops(v, c) ==> v in s
    decreases |c|
  {
    hide IncomingNewer;
    var n := |c| - 1;
    var x := c[n];
    assert c == c[..n] + [x];
    var survived := Listed(set y | y in vs && y.Same(w) && !y.Newer(x));
    if n == 0 {
      TakenAndKept(None, x, survived);
      s := [x] + survived;
    } else {
      var lower := ClimbingOrder(vs, w, c[..n]);
      assert c[..n][n - 1] == c[n - 1];
      TakenAndKept(Some(c[n - 1]), x, survived);
      SettleConcat(None, lower, [x] + survived);
      s := lower + ([x] + survived);
    }
  }

  /** A payload that does not prevail: some order does not end with it. */
  lemma AvoidingOrder(vs: set<Version>, w: Version) returns (s: seq<Version>)
    requires w in vs && !Prevails(vs, w)
    ensures (set v | v in s) == vs && Settle(None, s).Some? && !Settle(None, s).value.Same(w)
  {
    hide IncomingNewer, Climb, Tops;
    if !Stays(vs, w) {
      var v, x :| v in vs && x in vs && v.Same(w) && !x.Same(w) && x.Newer(v);
      s := ReplacingOrder(vs, w, v, x);
    } else {
      var c: seq<Version> :| Climb(vs, w, c) && !SomeTops(vs, w, c);
      var climbed := ClimbingOrder(vs, w, c);
      var others := Listed(set y | y in vs && !y.Same(w));
      s := climbed + others;
      SettleConcat(None, climbed, others);
      LastOf(vs, w, c);
      OthersStay(w, c[|c| - 1], others);
      assert forall y :: y in s <==> y in vs;
    }
  }

  lemma LastOf(vs: set<Version>, w: Version, c: seq<Version>)
    requires Climb(vs, w, c)
    ensures c != [] && !c[|c| - 1].Same(w)
  {}

  /** Any two runs that see exactly these versions of `k` end with the same payload. */
  ghost predicate Converges(vs: set<Version>, k: string) {
    forall rows1, batches1, rows2, batches2 ::
      Sees(rows1, batches1, k, vs) && Sees(rows2, batches2, k, vs) ==>
          SamePayload(Ends(rows1, batches1, k), Ends(rows2, batches2, k))
  }

  ghost predicate Sees(rows: Rows, batches: seq<seq<Row>>, k: string, vs: set<Version>) {
    UniqueKeys(rows.all) && UniqueBatches(batches) && Seen(rows, batches, k) == vs
  }

  lemma Presented(k: string, versions: seq<Version>, vs: set<Version>)
    requires !Blank(k) && (set v | v in versions) == vs
    ensures Sees(EMPTY, OneByOne(k, versions), k, vs) && Ends(EMPTY, OneByOne(k, versions), k) == Settle(None, versions)
  {
    hide Blank, OneByOne, Ends, Settle;
    OneByOneSettles(EMPTY, k, versions);
  }

  /** The condition is exact, for any versions: the order of imports does not
      matter for a key if and only if a payload prevails among them. */
  lemma ConvergesIff(vs: set<Version>, k: string)
    requires !Blank(k)
    ensures Converges(vs, k) <==> Decided(vs)
  {
    hide Blank, Ends, Settle, OneByOne, Prevails, Seen, UniqueKeys, UniqueBatches;
    if Decided(vs) {
      forall rows1, batches1, rows2, batches2 | Sees(rows1, batches1, k, vs) && Sees(rows2, batches2, k, vs)
        ensures SamePayload(Ends(rows1, batches1, k), Ends(rows2, batches2, k))
      {
        ImportOrderDoesNotMatter(rows1, batches1, rows2, batches2, k);
      }
    } else {
      var s1 := Listed(vs);
      SettledIsPresented(None, s1);
      var w := Settle(None, s1).value;
      var s2 := AvoidingOrder(vs, w);
      Presented(k, s1, vs);
      Presented(k, s2, vs);
    }
  }

  // ---- Timestamps that all parse, or none ----

  ghost predicate AllUniform(vs: set<Version>) {
    forall v, w :: v in vs && w in vs ==> (v.rev.Parsed() <==> w.rev.Parsed())
  }

  /** `p`'s payload is never replaced, and each other version is older than one of its. */
  ghost predicate Leads(vs: set<Version>, p: Version) {
    && p in vs && Stays(vs, p)
    && forall x :: x in vs && !x.Same(p) ==> exists v :: v in vs && v.Same(p) && v.Newer(x)
  }

  lemma {:induction false} TopsLast(vs: set<Version>, p: Version, c: seq<Version>, v: Version)
    requires AllUniform(vs) && Climb(vs, p, c) && v in vs && v.Newer(c[|c| - 1])
    ensures Tops(v, c)
    decreases |c|
  {
    hide IncomingNewer, Rev.Parsed;
    var n := |c| - 1;
    assert c == c[..n] + [c[n]];
    if n > 0 {
      var x, y := c[n], c[n - 1];
      NewerTrichotomy(y.rev, x.rev);
      NewerTrichotomy(x.rev, v.rev);
      NewerTrichotomy(v.rev, y.rev);
      NewerTransitive(v.rev, x.rev, y.rev);
      assert c[..n][n - 1] == y;
      TopsLast(vs, p, c[..n], v);
    }
  }

  /** For such versions, single ones take the place of climbs. */
  lemma PrevailsIff(vs: set<Version>, p: Version)
    requires AllUniform(vs)
    ensures Prevails(vs, p) <==> Leads(vs, p)
  {
    hide IncomingNewer, AllUniform, Stays;
    if Prevails(vs, p) {
      forall x | x in vs && !x.Same(p) ensures exists v :: v in vs && v.Same(p) && v.Newer(x) {
        assert Climb(vs, p, [x]) && SomeTops(vs, p, [x]);
        var v :| v in vs && v.Same(p) && Tops(v, [x]);
      }
    }
    if Leads(vs, p) {
      forall c | Climb(vs, p, c) ensures SomeTops(vs, p, c) {
        assert c[|c| - 1] in c;
        var v :| v in vs && v.Same(p) && v.Newer(c[|c| - 1]);
        TopsLast(vs, p, c, v);
      }
    }
  }

  /** The order of imports does not matter if and only if some payload is never
      replaced and each other version is older than one of its versions. */
  lemma UniformConvergesIff(vs: set<Version>, k: string)
    requires AllUniform(vs) && !Blank(k)
    ensures Converges(vs, k) <==> vs == {} || exists p :: Leads(vs, p)
  {
    hide Converges, Prevails, Leads, AllUniform;
    ConvergesIff(vs, k);
    forall p ensures Prevails(vs, p) <==> Leads(vs, p) { PrevailsIff(vs, p); }
  }

  // ---- Ties that agree ----

  /** Each version with the payload of `p` is newer than every version without. */
  ghost predicate Champion(vs: set<Version>, p: Version) {
    p in vs && forall v, x :: v in vs && x in vs && v.Same(p) && !x.Same(p) ==> v.Newer(x)
  }

  /** Revisions that arbitration cannot tell apart carry one payload. */
  ghost predicate TiesAgree(vs: set<Version>) {
    forall v, w :: v in vs && w in vs && v.rev.Tied(w.rev) ==> v.Same(w)
  }

  lemma ChampionPrevails(vs: set<Version>, p: Version)
    requires Champion(vs, p)
    ensures Prevails(vs, p)
  {
    hide IncomingNewer;
    forall v, x | v in vs && x in vs && v.Same(p) && !x.Same(p) ensures !x.Newer(v) { NewerTrichotomy(v.rev, x.rev); }
    forall c | Climb(vs, p, c) ensures SomeTops(vs, p, c) {
      assert p.Same(p) && Tops(p, c);
    }
  }

  /** So if some payload is such that each of its versions is newer than every version
      of another one, any run ends with it. */
  lemma ChampionWins(rows: Rows, batches: seq<seq<Row>>, k: string, p: Version)
    requires UniqueKeys(rows.all) && UniqueBatches(batches) && Champion(Seen(rows, batches, k), p)
    ensures Ends(rows, batches, k).Some? && Ends(rows, batches, k).value.Same(p)
    ensures Ends(rows, batches, k).value in Seen(rows, batches, k)
  {
    hide UniqueKeys, UniqueBatches, Ends, Seen, Champion, Prevails;
    ChampionPrevails(Seen(rows, batches, k), p);
    PrevailingWins(rows, batches, k, p);
  }

  /** As long as tied revisions carry one payload, that is the only way to prevail. */
  lemma PrevailsIsChampion(vs: set<Version>, p: Version)
    requires TiesAgree(vs)
    ensures Prevails(vs, p) <==> Champion(vs, p)
  {
    hide IncomingNewer, Climb, SomeTops, Rev.Tied;
    if Prevails(vs, p) {
      forall v, x | v in vs && x in vs && v.Same(p) && !x.Same(p) ensures v.Newer(x) { NewerTrichotomy(v.rev, x.rev); }
    }
    if Champion(vs, p) { ChampionPrevails(vs, p); }
  }

  /** With a tie there are others: a payload written at 1 and at 2 prevails over
      another one written at 1, by the same device, and beats it only once. */
  lemma TiedPayloadPrevails()
    ensures exists vs: set<Version>, p: Version :: AllUniform(vs) && Prevails(vs, p) && forall q :: !Champion(vs, q)
  {
    var extra := NoteExtra("", 1, None);
    var p1 := Version(Note("p", ""), 0, Rev(Stamp("t1", Some(1)), None), extra);
    var p2 := Version(Note("p", ""), 0, Rev(Stamp("t2", Some(2)), None), extra);
    var q1 := Version(Note("q", ""), 0, Rev(Stamp("t1", Some(1)), None), extra);
    var vs := {p1, p2, q1};
    assert p2.Newer(q1) && !p1.Newer(q1) && !q1.Newer(p1) && !q1.Newer(p2);
    assert p1.Same(p2) && !q1.Same(p1);
    hide IncomingNewer;
    assert Leads(vs, p1);
    hide Prevails;
    PrevailsIff(vs, p1);
    forall q ensures !Champion(vs, q) {}
  }

  // ---- Last writer wins ----

  /** Timestamps all parse or none does, and one revision goes with one payload. */
  ghost predicate Coherent(vs: set<Version>) {
    AllUniform(vs) && forall v, w :: v in vs && w in vs ==> (v.rev.Tied(w.rev) <==> v.Same(w))
  }

  ghost predicate Newest(vs: set<Version>, w: Version) {
    w in vs && forall v :: v in vs ==> !v.Newer(w)
  }

  lemma {:induction false} NewestExists(vs: set<Version>) returns (w: Version)
    requires Coherent(vs) && vs != {}
    ensures Newest(vs, w)
    decreases vs
  {
    var v :| v in vs;
    NewerTrichotomy(v.rev, v.rev);
    hide IncomingNewer, Rev.Tied, Rev.Parsed;
    if vs == {v} {
      w := v;
    } else {
      var u := NewestExists(vs - {v});
      w := if v.Newer(u) then v else u;
      forall x | x in vs ensures !x.Newer(w) {
        assert x != v ==> x in vs - {v};
        if v.Newer(u) && x != v {
          NewerTrichotomy(v.rev, u.rev);
          NewerTransitive(v.rev, u.rev, x.rev);
        }
      }
    }
  }

  lemma NewestIsChampion(vs: set<Version>, w: Version)
    requires Coherent(vs) && Newest(vs, w)
    ensures Champion(vs, w)
  {
    hide IncomingNewer, Rev.Tied, Rev.Parsed;
    forall v, x | v in vs && x in vs && v.Same(w) && !x.Same(w) ensures v.Newer(x) {
      NewerTrichotomy(w.rev, v.rev);
      NewerTransitive(v.rev, w.rev, x.rev);
      NewerTrichotomy(v.rev, x.rev);
    }
  }

  /** After any run of unique-key batches, each key holds the newest version of
      all that were ever seen for it. */
  lemma RunKeepsNewest(rows: Rows, batches: seq<seq<Row>>, k: string)
    requires UniqueKeys(rows.all) && UniqueBatches(batches) && Coherent(Seen(rows, batches, k))
    ensures var stored := Ends(rows, batches, k);
            if stored.Some? then Newest(Seen(rows, batches, k), stored.value) else Seen(rows, batches, k) == {}
  {
    hide UniqueKeys, UniqueBatches, Ends, Seen, IncomingNewer, Rev.Tied, Rev.Parsed;
    var all := Seen(rows, batches, k);
    if all == {} {
      NothingSeen(rows, batches, k);
    } else {
      var w := NewestExists(all);
      NewestIsChampion(all, w);
      ChampionWins(rows, batches, k, w);
      var stored := Ends(rows, batches, k).value;
      forall v | v in all ensures !v.Newer(stored) {
        NewerTrichotomy(w.rev, stored.rev);
        NewerTransitive(stored.rev, w.rev, v.rev);
      }
    }
  }

  // ---- Orders that matter ----

  /** One unparsable timestamp among three versions: the order of the imports
      decides which one is kept. */
  lemma UnparsedOrderMatters()
    ensures exists rows: Rows, a: seq<Row>, b: seq<Row>, k: string ::
        && UniqueKeys(rows.all) && UniqueBatch(a) && UniqueBatch(b)
        && !SamePayload(Ends(rows, [a, b], k), Ends(rows, [b, a], k))
  {
    var extra := NoteExtra("", 1, None);
    var x := Version(Note("x", ""), 0, Rev(Stamp("t2", Some(2)), Some("a")), extra);
    var y := Version(Note("y", ""), 0, Rev(Stamp("t1", Some(1)), Some("c")), extra);
    var z := Version(Note("z", ""), 0, Rev(Stamp("?", None), Some("b")), extra);
    assert x.Newer(y) && y.Newer(z) && z.Newer(x) && !x.Newer(z) && !z.Newer(y);
    var rows := Rows([Row(1, "k", x)], 2);
    var a, b := [Row(1, "k", y)], [Row(1, "k", z)];
    assert !IsSpace('k') && !Blank("k");
    assert Key(a[0]) == "k" && Key(b[0]) == "k";
    TwoImports(rows, a, b, "k");
    TwoImports(rows, b, a, "k");
    assert Incoming(a, "k") == Some(y) && Incoming(b, "k") == Some(z) && Lookup(rows.all, "k") == Some(x);
    assert Ends(rows, [a, b], "k") == Some(z) && Ends(rows, [b, a], "k") == Some(y);
    assert !SamePayload(Some(z), Some(y));
  }

  /** All timestamps parse, but a payload came back: written at 1 and again at 3,
      with another one at 2. Whoever has the first skips the third and takes the
      second; whoever gets the second in between ends with the third. */
  lemma RepeatedPayloadOrderMatters()
    ensures exists rows: Rows, a: seq<Row>, b: seq<Row>, k: string ::
        && UniqueKeys(rows.all) && UniqueBatch(a) && UniqueBatch(b)
        && (forall v :: v in Seen(rows, [a, b], k) ==> v.rev.Parsed()) && TiesAgree(Seen(rows, [a, b], k))
        && !SamePayload(Ends(rows, [a, b], k), Ends(rows, [b, a], k))
  {
    var extra := NoteExtra("", 1, None);
    var p1 := Version(Note("p", ""), 0, Rev(Stamp("t1", Some(1)), None), extra);
    var q2 := Version(Note("q", ""), 0, Rev(Stamp("t2", Some(2)), None), extra);
    var p3 := Version(Note("p", ""), 0, Rev(Stamp("t3", Some(3)), None), extra);
    assert q2.Newer(p1) && p3.Newer(q2);
    var rows := Rows([Row(1, "k", p1)], 2);
    var a, b := [Row(1, "k", p3)], [Row(1, "k", q2)];
    assert !IsSpace('k') && !Blank("k");
    assert Key(a[0]) == "k" && Key(b[0]) == "k";
    TwoImports(rows, a, b, "k");
    TwoImports(rows, b, a, "k");
    assert Incoming(a, "k") == Some(p3) && Incoming(b, "k") == Some(q2) && Lookup(rows.all, "k") == Some(p1);
    assert Ends(rows, [a, b], "k") == Some(q2) && Ends(rows, [b, a], "k") == Some(p3);
    assert [a, b][1..] == [b] && [b][1..] == [];
    assert Brought([b], "k") == {q2};
    assert Seen(rows, [a, b], "k") == {p1, p3, q2};
  }

  lemma TwoImports(rows: Rows, a: seq<Row>, b: seq<Row>, k: string)
    requires UniqueKeys(rows.all) && UniqueBatch(a) && UniqueBatch(b)
    ensures Lookup(RunImports(rows, [a, b]).all, k)
         == Resolve(Resolve(Lookup(rows.all, k), Incoming(a, k)), Incoming(b, k))
  {
    ImportByKey(rows, a, k);
    ImportByKey(Imported(rows, a).0, b, k);
    assert [a, b][1..] == [b] && [b][1..] == [];
    assert RunImports(Imported(Imported(rows, a).0, b).0, []) == Imported(Imported(rows, a).0, b).0;
    assert RunImports(Imported(rows, a).0, [b]) == Imported(Imported(rows, a).0, b).0;
  }
}
