/** Events as the transforms see them: a start, a duration and opaque JSON data.
    Times are integer nanoseconds; an event covers the half-open interval
    [timestamp, End()). */
module Events {

  datatype Option<+T> = None | Some(value: T)

  function Min(a: int, b: int): int { if a <= b then a else b }

  function Max(a: int, b: int): int { if a >= b then a else b }

  /** A JSON object, compared only for equality. */
  datatype Data = Json(text: string)

  const EMPTY_DATA := Json("{}")

  datatype Event = Event(id: Option<int>, timestamp: int, duration: int, data: Data) {
    function End(): int { timestamp + duration }

    predicate Covers(t: int) { timestamp <= t < End() }

    predicate Marks(t: int, d: Data) { Covers(t) && data == d }

    /** This event's interval lies inside that of `o`, under the same data. */
    predicate Within(o: Event) {
      o.timestamp <= timestamp && End() <= o.End() && o.data == data
    }
  }

  ghost predicate Covered(es: seq<Event>, t: int) {
    exists e :: e in es && e.Covers(t)
  }

  /** Some event of `es` shows data `d` at instant `t`. */
  ghost predicate Shows(es: seq<Event>, t: int, d: Data) {
    exists e :: e in es && e.Marks(t, d)
  }

  ghost predicate Sorted(es: seq<Event>) {
    forall i, j :: 0 <= i < j < |es| ==> es[i].timestamp <= es[j].timestamp
  }

  ghost predicate NonNegative(es: seq<Event>) {
    forall e :: e in es ==> e.duration >= 0
  }

  ghost predicate Positive(es: seq<Event>) {
    forall e :: e in es ==> e.duration > 0
  }

  /** In list order, every event ends no later than any later one starts. */
  ghost predicate NonOverlapping(es: seq<Event>) {
    forall i, j :: 0 <= i < j < |es| ==> es[i].End() <= es[j].timestamp
  }

  /** Non-overlapping with durations >= 0, along the list. */
  predicate Apart(e1: Event, rest: seq<Event>)
    decreases |rest|
  {
    e1.duration >= 0 && (rest != [] ==> e1.End() <= rest[0].timestamp && Apart(rest[0], rest[1..]))
  }

  lemma {:induction false} ApartIsNonOverlapping(e1: Event, rest: seq<Event>)
    ensures Apart(e1, rest) <==> NonOverlapping([e1] + rest) && NonNegative([e1] + rest)
    ensures Apart(e1, rest) ==> forall x :: x in rest ==> e1.End() <= x.timestamp
    decreases |rest|
  {
    var all := [e1] + rest;
    assert all[0] in all;
    if rest != [] {
      ApartIsNonOverlapping(rest[0], rest[1..]);
      assert [rest[0]] + rest[1..] == rest;
      assert forall i :: 1 <= i < |all| ==> all[i] == rest[i - 1];
      if NonOverlapping(all) && NonNegative(all) {
        assert all[0].End() <= all[1].timestamp;
        forall i, j | 0 <= i < j < |rest| ensures rest[i].End() <= rest[j].timestamp {
          assert all[i + 1].End() <= all[j + 1].timestamp;
        }
        assert forall x :: x in rest ==> x in all;
      }
    }
  }

  // ---- sort_by_timestamp ----

  function Insert(e: Event, es: seq<Event>): (r: seq<Event>)
    ensures |r| == |es| + 1
  {
    if es == [] || e.timestamp <= es[0].timestamp then [e] + es
    else [es[0]] + Insert(e, es[1..])
  }

  /** The standard library's stable sort, keyed by timestamp. */
  function SortByTimestamp(es: seq<Event>): (r: seq<Event>)
    ensures |r| == |es|
  {
    if es == [] then [] else Insert(es[0], SortByTimestamp(es[1..]))
  }

  lemma {:induction false} InsertPermutes(e: Event, es: seq<Event>)
    ensures multiset(Insert(e, es)) == multiset{e} + multiset(es)
  {
    if es != [] && e.timestamp > es[0].timestamp {
      InsertPermutes(e, es[1..]);
      assert es == [es[0]] + es[1..];
    }
  }

  lemma {:induction false} InsertSorts(e: Event, es: seq<Event>)
    requires Sorted(es)
    ensures Sorted(Insert(e, es))
    ensures es != [] ==> Insert(e, es)[0].timestamp == Min(e.timestamp, es[0].timestamp)
  {
    if es != [] && e.timestamp > es[0].timestamp {
      InsertSorts(e, es[1..]);
    }
  }

  lemma {:induction false} SortIsSortedPermutation(es: seq<Event>)
    ensures multiset(SortByTimestamp(es)) == multiset(es)
    ensures Sorted(SortByTimestamp(es))
  {
    if es != [] {
      SortIsSortedPermutation(es[1..]);
      InsertPermutes(es[0], SortByTimestamp(es[1..]));
      InsertSorts(es[0], SortByTimestamp(es[1..]));
      assert es == [es[0]] + es[1..];
    }
  }

  lemma SortFacts(es: seq<Event>)
    ensures Sorted(SortByTimestamp(es))
    ensures forall e :: e in SortByTimestamp(es) <==> e in es
  {
    SortIsSortedPermutation(es);
    var r := SortByTimestamp(es);
    forall e ensures e in r <==> e in es {
      assert e in r <==> e in multiset(r);
      assert e in es <==> e in multiset(es);
    }
  }

  lemma {:induction false} SortedIsFixed(es: seq<Event>)
    requires Sorted(es)
    ensures SortByTimestamp(es) == es
  {
    if es != [] {
      SortedIsFixed(es[1..]);
      assert es == [es[0]] + es[1..];
    }
  }

  /** The events that start at `t`, in list order. */
  function At(es: seq<Event>, t: int): seq<Event> {
    if es == [] then []
    else (if es[0].timestamp == t then [es[0]] else []) + At(es[1..], t)
  }

  /** Stability: events with equal timestamps keep their relative order. */
  lemma {:induction false} SortIsStable(es: seq<Event>, t: int)
    ensures At(SortByTimestamp(es), t) == At(es, t)
  {
    if es != [] {
      SortIsStable(es[1..], t);
      InsertAt(es[0], SortByTimestamp(es[1..]), t);
    }
  }

  lemma AtCons(e: Event, es: seq<Event>, t: int)
    ensures At([e] + es, t) == (if e.timestamp == t then [e] else []) + At(es, t)
  {
    assert ([e] + es)[1..] == es;
  }

  lemma {:induction false} InsertAt(e: Event, es: seq<Event>, t: int)
    ensures At(Insert(e, es), t) == (if e.timestamp == t then [e] else []) + At(es, t)
  {
    hide At;
    if es == [] || e.timestamp <= es[0].timestamp {
      AtCons(e, es, t);
    } else {
      InsertAt(e, es[1..], t);
      AtCons(es[0], Insert(e, es[1..]), t);
      AtCons(es[0], es[1..], t);
      assert es == [es[0]] + es[1..];
    }
  }

  // ---- Composed lists ----

  lemma AppendHead(done: seq<Event>, e: Event, rest: seq<Event>)
    ensures done + ([e] + rest) == (done + [e]) + rest
  {}

  lemma CoveredConcat(a: seq<Event>, b: seq<Event>, t: int)
    ensures Covered(a + b, t) <==> Covered(a, t) || Covered(b, t)
  {
    if Covered(a, t) { var e :| e in a && e.Covers(t); assert e in a + b; }
    if Covered(b, t) { var e :| e in b && e.Covers(t); assert e in a + b; }
  }

  lemma ShowsConcat(a: seq<Event>, b: seq<Event>, t: int, d: Data)
    ensures Shows(a + b, t, d) <==> Shows(a, t, d) || Shows(b, t, d)
  {
    if Shows(a, t, d) { var e :| e in a && e.Marks(t, d); assert e in a + b; }
    if Shows(b, t, d) { var e :| e in b && e.Marks(t, d); assert e in a + b; }
  }

  lemma CoveredCons(e: Event, es: seq<Event>, t: int)
    ensures Covered([e] + es, t) <==> e.Covers(t) || Covered(es, t)
  {
    CoveredConcat([e], es, t);
    assert e in [e];
  }

  lemma ShowsCons(e: Event, es: seq<Event>, t: int, d: Data)
    ensures Shows([e] + es, t, d) <==> e.Marks(t, d) || Shows(es, t, d)
  {
    ShowsConcat([e], es, t, d);
    assert e in [e];
  }

  lemma CoveredSort(es: seq<Event>, t: int)
    ensures Covered(SortByTimestamp(es), t) <==> Covered(es, t)
  {
    SortFacts(es);
  }

  lemma ShowsSort(es: seq<Event>, t: int, d: Data)
    ensures Shows(SortByTimestamp(es), t, d) <==> Shows(es, t, d)
  {
    SortFacts(es);
  }
}
