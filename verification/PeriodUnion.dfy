/** period_union: the periods covered by either of two event lists. */
module PeriodUnion {
  import opened Events
  import opened TimeIntervals

  /** `last` is the period being grown, `rest` the events still to come. */
  function Grow(last: Event, rest: seq<Event>): seq<Event>
    decreases |rest|
  {
    if rest == [] then [last]
    else
      match Interval(rest[0]).Union(Interval(last))
      case Some(p) => Grow(last.(duration := p.Duration()), rest[1..])
      case None => [last] + Grow(rest[0], rest[1..])
  }

  function GrowAll(es: seq<Event>): seq<Event> {
    if es == [] then [] else Grow(es[0], es[1..])
  }

  function Strip(es: seq<Event>): (r: seq<Event>)
    ensures |r| == |es|
  {
    seq(|es|, i requires 0 <= i < |es| => es[i].(data := EMPTY_DATA))
  }

  function Periods(events1: seq<Event>, events2: seq<Event>): seq<Event> {
    Strip(GrowAll(SortByTimestamp(events1 + events2)))
  }

  method UnionPeriods(events1: seq<Event>, events2: seq<Event>) returns (result: seq<Event>)
    ensures result == Periods(events1, events2)
  {
    var sorted := SortByTimestamp(events1 + events2);
    var union: seq<Event> := [];
    ghost var all := GrowAll(sorted);
    hide SortByTimestamp;
    if sorted != [] {
      union, sorted := [sorted[0]], sorted[1..];
      ghost var done: seq<Event> := [];
      ghost var todo := all;
      for i := 0 to |sorted|
        invariant |union| == |done| + 1 && done == union[..|done|]
        invariant todo == Grow(union[|done|], sorted[i..]) && done + todo == all
      {
        var e, last := sorted[i], union[|union| - 1];
        assert sorted[i..][0] == e && sorted[i..][1..] == sorted[i + 1..];
        match Interval(e).Union(Interval(last)) {
          case Some(p) =>
            union := union[..|union| - 1];
            union := union + [last.(duration := p.Duration())];
          case None =>
            ghost var after := Grow(e, sorted[i + 1..]);
            AppendHead(done, last, after);
            done, todo := done + [last], after;
            union := union + [e];
        }
      }
      assert todo == [union[|done|]];
    }
    result := Strip(union);
  }

  // ---- The output is in canonical form ----

  /** Consecutive periods are separated by a gap of positive length. */
  predicate Gapped(es: seq<Event>) {
    es != [] ==> es[0].duration >= 0 && (|es| > 1 ==> es[0].End() < es[1].timestamp) && Gapped(es[1..])
  }

  /** Instant `u / 2` lies in the closed interval of `e`. Half nanoseconds tell
      an interval's inside from the gap of 1 ns between two of them. */
  predicate Touches(e: Event, u: int) { 2 * e.timestamp <= u <= 2 * e.End() }

  ghost predicate Touched(es: seq<Event>, u: int) {
    exists e :: e in es && Touches(e, u)
  }

  ghost predicate SameInstants(a: seq<Event>, b: seq<Event>) {
    forall u :: Touched(a, u) <==> Touched(b, u)
  }

  lemma TouchedConcat(a: seq<Event>, b: seq<Event>, u: int)
    ensures Touched(a + b, u) <==> Touched(a, u) || Touched(b, u)
  {
    if Touched(a, u) { var e :| e in a && Touches(e, u); assert e in a + b; }
    if Touched(b, u) { var e :| e in b && Touches(e, u); assert e in a + b; }
  }

  lemma TouchedCons(e: Event, es: seq<Event>, u: int)
    ensures Touched([e] + es, u) <==> Touches(e, u) || Touched(es, u)
  {
    TouchedConcat([e], es, u);
    assert e in [e];
  }

  /** `last` and what is left in start order, with durations >= 0. */
  predicate Ready(last: Event, rest: seq<Event>)
    decreases |rest|
  {
    last.duration >= 0 && (rest != [] ==> last.timestamp <= rest[0].timestamp && Ready(rest[0], rest[1..]))
  }

  lemma {:induction false} SortedIsReady(es: seq<Event>)
    requires Sorted(es) && NonNegative(es) && es != []
    ensures Ready(es[0], es[1..])
  {
    assert es[0] in es;
    if |es| > 1 {
      var tail := es[1..];
      assert forall i :: 0 <= i < |tail| ==> tail[i] == es[i + 1] && tail[i] in es;
      SortedIsReady(tail);
    }
  }

  lemma {:induction false} GrowGapped(last: Event, rest: seq<Event>)
    requires Ready(last, rest)
    ensures var out := Grow(last, rest); out != [] && out[0].timestamp == last.timestamp && Gapped(out)
    decreases |rest|
  {
    if rest != [] {
      match Interval(rest[0]).Union(Interval(last))
      case Some(p) =>
        assert p == TimeInterval(last.timestamp, Max(last.End(), rest[0].End()));
        var grown := last.(duration := p.Duration());
        assert Ready(grown, rest[1..]) by { assert Ready(rest[0], rest[1..]); }
        GrowGapped(grown, rest[1..]);
      case None =>
        GrowGapped(rest[0], rest[1..]);
        assert Grow(last, rest)[1..] == Grow(rest[0], rest[1..]);
    }
  }

  lemma {:induction false} GrowTouches(last: Event, rest: seq<Event>, u: int, t: int)
    requires Ready(last, rest)
    ensures Touched(Grow(last, rest), u) <==> Touches(last, u) || Touched(rest, u)
    ensures Covered(Grow(last, rest), t) <==> last.Covers(t) || Covered(rest, t)
    decreases |rest|
  {
    if rest == [] {
      TouchedCons(last, [], u);
      CoveredCons(last, [], t);
    } else {
      hide Touched, Covered;
      var e, tail := rest[0], rest[1..];
      assert [e] + tail == rest;
      TouchedCons(e, tail, u);
      CoveredCons(e, tail, t);
      match Interval(e).Union(Interval(last))
      case Some(p) =>
        assert p == TimeInterval(last.timestamp, Max(last.End(), e.End()));
        var grown := last.(duration := p.Duration());
        assert Ready(grown, tail) by { assert Ready(e, tail); }
        assert Touches(grown, u) <==> Touches(last, u) || Touches(e, u);
        assert grown.Covers(t) <==> last.Covers(t) || e.Covers(t);
        GrowTouches(grown, tail, u, t);
      case None =>
        GrowTouches(e, tail, u, t);
        TouchedCons(last, Grow(e, tail), u);
        CoveredCons(last, Grow(e, tail), t);
    }
  }

  lemma StripFacts(es: seq<Event>, u: int, t: int)
    ensures Touched(Strip(es), u) <==> Touched(es, u)
    ensures Covered(Strip(es), t) <==> Covered(es, t)
  {
    var r := Strip(es);
    assert forall i :: 0 <= i < |es| ==> r[i] in r && es[i] in es;
    if Touched(es, u) {
      var e :| e in es && Touches(e, u);
      var i :| 0 <= i < |es| && es[i] == e;
      assert Touches(r[i], u);
    }
    if Covered(es, t) {
      var e :| e in es && e.Covers(t);
      var i :| 0 <= i < |es| && es[i] == e;
      assert r[i].Covers(t);
    }
  }

  lemma {:induction false} StripGapped(es: seq<Event>)
    requires Gapped(es)
    ensures Gapped(Strip(es))
  {
    if es != [] {
      StripGapped(es[1..]);
      assert Strip(es)[1..] == Strip(es[1..]);
    }
  }

  /** The output covers exactly the instants of both inputs, keeps end points
      too, is separated by gaps of positive length, and carries no data. */
  lemma PeriodsCover(events1: seq<Event>, events2: seq<Event>, u: int, t: int)
    requires NonNegative(events1) && NonNegative(events2)
    ensures Gapped(Periods(events1, events2))
    ensures Touched(Periods(events1, events2), u) <==> Touched(events1, u) || Touched(events2, u)
    ensures Covered(Periods(events1, events2), t) <==> Covered(events1, t) || Covered(events2, t)
    ensures forall o :: o in Periods(events1, events2) ==> o.data == EMPTY_DATA
  {
    var all := events1 + events2;
    var es := SortByTimestamp(all);
    SortFacts(all);
    TouchedConcat(events1, events2, u);
    CoveredConcat(events1, events2, t);
    StripFacts(GrowAll(es), u, t);
    if es != [] {
      var last, rest := es[0], es[1..];
      assert es == [last] + rest;
      SortedIsReady(es);
      GrowGapped(last, rest);
      StripGapped(GrowAll(es));
      GrowTouches(last, rest, u, t);
      TouchedCons(last, rest, u);
      CoveredCons(last, rest, t);
    }
  }

  // ---- Canonical: the covered instants determine the periods ----

  /** The same intervals, whatever the ids. */
  predicate SamePeriods(a: seq<Event>, b: seq<Event>) {
    |a| == |b| && forall i :: 0 <= i < |a| ==> Interval(a[i]) == Interval(b[i])
  }

  lemma GappedHead(es: seq<Event>, u: int)
    requires Gapped(es) && es != []
    ensures u <= 2 * es[0].End() + 1 ==> !Touched(es[1..], u)
    ensures Touched(es, u) <==> Touches(es[0], u) || Touched(es[1..], u)
    decreases |es|
  {
    assert es == [es[0]] + es[1..];
    TouchedCons(es[0], es[1..], u);
    if |es| > 1 {
      GappedHead(es[1..], u);
    }
  }

  lemma HeadTouched(es: seq<Event>)
    requires Gapped(es) && es != []
    ensures Touched(es, 2 * es[0].timestamp) && Touched(es, 2 * es[0].End())
  {
    assert es[0] in es && Touches(es[0], 2 * es[0].timestamp) && Touches(es[0], 2 * es[0].End());
  }

  lemma {:induction false} CanonicalForm(a: seq<Event>, b: seq<Event>)
    requires Gapped(a) && Gapped(b) && SameInstants(a, b)
    ensures SamePeriods(a, b)
    decreases |a|
  {
    if a != [] { HeadTouched(a); }
    if b != [] { HeadTouched(b); }
    if a != [] && b != [] {
      var x, y := a[0], b[0];
      forall u ensures Touched(a, u) <==> Touches(x, u) || Touched(a[1..], u)
               ensures Touched(b, u) <==> Touches(y, u) || Touched(b[1..], u)
               ensures u <= 2 * x.End() + 1 ==> !Touched(a[1..], u)
               ensures u <= 2 * y.End() + 1 ==> !Touched(b[1..], u)
      {
        GappedHead(a, u);
        GappedHead(b, u);
      }
      hide Touched;
      assert Touched(b, 2 * x.timestamp) && Touched(a, 2 * y.timestamp);
      assert x.timestamp == y.timestamp;
      assert !Touched(a, 2 * x.End() + 1) && !Touched(b, 2 * y.End() + 1);
      assert x.End() == y.End();
      CanonicalForm(a[1..], b[1..]);
      forall i | 0 <= i < |a| ensures Interval(a[i]) == Interval(b[i]) {
        if i > 0 { assert a[i] == a[1..][i - 1] && b[i] == b[1..][i - 1]; }
      }
    }
  }

  /** Inputs that reach the same instants give the same periods. */
  lemma PeriodsDetermined(a1: seq<Event>, a2: seq<Event>, b1: seq<Event>, b2: seq<Event>)
    requires NonNegative(a1) && NonNegative(a2) && NonNegative(b1) && NonNegative(b2)
    requires SameInstants(a1 + a2, b1 + b2)
    ensures SamePeriods(Periods(a1, a2), Periods(b1, b2))
  {
    forall u ensures Touched(Periods(a1, a2), u) <==> Touched(Periods(b1, b2), u) {
      PeriodsCover(a1, a2, u, 0);
      PeriodsCover(b1, b2, u, 0);
      TouchedConcat(a1, a2, u);
      TouchedConcat(b1, b2, u);
      assert Touched(a1 + a2, u) <==> Touched(b1 + b2, u);
    }
    PeriodsCover(a1, a2, 0, 0);
    PeriodsCover(b1, b2, 0, 0);
    CanonicalForm(Periods(a1, a2), Periods(b1, b2));
  }

  lemma {:induction false} GappedNonNegative(es: seq<Event>)
    requires Gapped(es)
    ensures NonNegative(es)
  {
    if es != [] {
      GappedNonNegative(es[1..]);
      assert es == [es[0]] + es[1..];
    }
  }

  /** The arguments may be swapped, and uniting the result with an input again,
      or with nothing, changes no period. */
  lemma PeriodsLaws(a: seq<Event>, b: seq<Event>)
    requires NonNegative(a) && NonNegative(b)
    ensures SamePeriods(Periods(a, b), Periods(b, a))
    ensures SamePeriods(Periods(Periods(a, b), b), Periods(a, b))
    ensures SamePeriods(Periods(Periods(a, b), []), Periods(a, b))
  {
    var p := Periods(a, b);
    PeriodsCover(a, b, 0, 0);
    GappedNonNegative(p);
    hide Periods;
    forall u ensures Touched(a + b, u) <==> Touched(b + a, u)
             ensures Touched(p + b, u) <==> Touched(a + b, u)
             ensures Touched(p + [], u) <==> Touched(a + b, u)
    {
      PeriodsCover(a, b, u, 0);
      TouchedConcat(a, b, u);
      TouchedConcat(b, a, u);
      TouchedConcat(p, b, u);
      TouchedConcat(p, [], u);
    }
    PeriodsDetermined(a, b, b, a);
    PeriodsDetermined(p, b, a, b);
    PeriodsDetermined(p, [], a, b);
  }

  /** For events of positive length the covered instants alone decide. */
  lemma PeriodsFromCoverage(a1: seq<Event>, a2: seq<Event>, b1: seq<Event>, b2: seq<Event>)
    requires Positive(a1 + a2) && Positive(b1 + b2)
    requires forall t :: Covered(a1 + a2, t) <==> Covered(b1 + b2, t)
    ensures SamePeriods(Periods(a1, a2), Periods(b1, b2))
  {
    forall u ensures Touched(a1 + a2, u) <==> Touched(b1 + b2, u) {
      TouchedByCoverage(a1 + a2, u);
      TouchedByCoverage(b1 + b2, u);
    }
    assert forall e :: e in a1 || e in a2 ==> e in a1 + a2;
    assert forall e :: e in b1 || e in b2 ==> e in b1 + b2;
    PeriodsDetermined(a1, a2, b1, b2);
  }

  lemma TouchedByCoverage(es: seq<Event>, u: int)
    requires Positive(es)
    ensures Touched(es, u) <==> Covered(es, u / 2) || (u % 2 == 0 && Covered(es, u / 2 - 1))
  {
    if Touched(es, u) {
      var e :| e in es && Touches(e, u);
      assert e.Covers(u / 2) || (u % 2 == 0 && e.Covers(u / 2 - 1));
    }
    if Covered(es, u / 2) {
      var e :| e in es && e.Covers(u / 2);
      assert Touches(e, u);
    }
    if u % 2 == 0 && Covered(es, u / 2 - 1) {
      var e :| e in es && e.Covers(u / 2 - 1);
      assert Touches(e, u);
    }
  }
}
