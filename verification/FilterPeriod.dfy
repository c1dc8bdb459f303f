/** filter_period_intersect: cuts events down to the periods of a filter list. */
module FilterPeriod {
  import opened Events

  function Clip(e: Event, f: Event): Event {
    var start := Max(e.timestamp, f.timestamp);
    e.(timestamp := start, duration := Min(e.End(), f.End()) - start)
  }

  /** What is left of `e` from instant `t` on. */
  function TrimTo(e: Event, t: int): Event {
    e.(timestamp := t, duration := e.End() - t)
  }

  predicate EventDone(cur: Event, f: Event) { cur.duration == 0 || cur.End() <= f.timestamp }

  predicate FilterDone(cur: Event, f: Event) { cur.timestamp >= f.End() }

  function FilterFrom(cur: Event, events: seq<Event>, f: Event, filters: seq<Event>): seq<Event>
    decreases |events| + |filters|, if EventDone(cur, f) || FilterDone(cur, f) then 0 else 1
  {
    if EventDone(cur, f) then
      if events == [] then [] else FilterFrom(events[0], events[1..], f, filters)
    else if FilterDone(cur, f) then
      if filters == [] then [] else FilterFrom(cur, events, filters[0], filters[1..])
    else
      var e := Clip(cur, f);
      [e] + FilterFrom(TrimTo(cur, e.End()), events, f, filters)
  }

  function Filtered(events: seq<Event>, filters: seq<Event>): seq<Event> {
    if events == [] || filters == [] then []
    else
      var es, fs := SortByTimestamp(events), SortByTimestamp(filters);
      FilterFrom(es[0], es[1..], fs[0], fs[1..])
  }

  lemma FilterStep(cur: Event, events: seq<Event>, f: Event, filters: seq<Event>)
    ensures var out := FilterFrom(cur, events, f, filters);
            if EventDone(cur, f) then
              out == if events == [] then [] else FilterFrom(events[0], events[1..], f, filters)
            else if FilterDone(cur, f) then
              out == if filters == [] then [] else FilterFrom(cur, events, filters[0], filters[1..])
            else
              var e := Clip(cur, f);
              var cur' := TrimTo(cur, e.End());
              out == [e] + FilterFrom(cur', events, f, filters) && (EventDone(cur', f) || FilterDone(cur', f))
  {}

  /** Terminates on every input, although an event that was trimmed is examined
      again: after a trim either the event is used up or the filter is. */
  method FilterPeriodIntersect(events: seq<Event>, filterEvents: seq<Event>) returns (filtered: seq<Event>)
    ensures filtered == Filtered(events, filterEvents)
  {
    if events == [] || filterEvents == [] {
      return [];
    }
    filtered := [];
    var es := SortByTimestamp(events);
    var fs := SortByTimestamp(filterEvents);
    var cur, f := es[0], fs[0];
    var i, j := 1, 1;
    ghost var todo := FilterFrom(cur, es[1..], f, fs[1..]);
    assert todo == Filtered(events, filterEvents);
    hide *;
    while true
      invariant 1 <= i <= |es| && 1 <= j <= |fs|
      invariant todo == FilterFrom(cur, es[i..], f, fs[j..])
      invariant filtered + todo == Filtered(events, filterEvents)
      decreases |es| - i + |fs| - j, if EventDone(cur, f) || FilterDone(cur, f) then 0 else 1
    {
      ghost var es', fs' := es[i..], fs[j..];
      FilterStep(cur, es', f, fs');
      if EventDone(cur, f) {
        if i == |es| {
          return;
        }
        assert es'[1..] == es[i + 1..];
        cur, i := es[i], i + 1;
      } else if FilterDone(cur, f) {
        if j == |fs| {
          return;
        }
        assert fs'[1..] == fs[j + 1..];
        f, j := fs[j], j + 1;
      } else {
        var e := Clip(cur, f);
        cur := TrimTo(cur, e.End());
        ghost var after := FilterFrom(cur, es', f, fs');
        AppendHead(filtered, e, after);
        filtered, todo := filtered + [e], after;
      }
    }
  }

  // ---- Every output is a piece of one event under one filter ----

  ghost predicate PieceOf(o: Event, e: Event, f: Event) {
    && o.id == e.id && o.data == e.data && o.duration >= 0
    && e.timestamp <= o.timestamp && o.End() <= e.End()
    && f.timestamp <= o.timestamp && o.End() <= f.End()
  }

  ghost predicate Piece(o: Event, es: seq<Event>, fs: seq<Event>) {
    exists e, f :: e in es && f in fs && PieceOf(o, e, f)
  }

  /** `src` is the event that `cur` is a trimmed rest of. */
  lemma {:induction false} FilterFromPieces(cur: Event, events: seq<Event>, f: Event, filters: seq<Event>,
                                            es: seq<Event>, fs: seq<Event>, src: Event)
    requires src in es && src.id == cur.id && src.data == cur.data
    requires src.timestamp <= cur.timestamp && cur.End() == src.End() && cur.duration >= 0
    requires NonNegative(es) && NonNegative(fs) && f in fs
    requires (forall e :: e in events ==> e in es) && (forall g :: g in filters ==> g in fs)
    ensures forall o :: o in FilterFrom(cur, events, f, filters) ==> Piece(o, es, fs)
    decreases |events| + |filters|, if EventDone(cur, f) || FilterDone(cur, f) then 0 else 1
  {
    if EventDone(cur, f) {
      if events != [] {
        FilterFromPieces(events[0], events[1..], f, filters, es, fs, events[0]);
      }
    } else if FilterDone(cur, f) {
      if filters != [] {
        FilterFromPieces(cur, events, filters[0], filters[1..], es, fs, src);
      }
    } else {
      var e := Clip(cur, f);
      assert PieceOf(e, src, f);
      FilterFromPieces(TrimTo(cur, e.End()), events, f, filters, es, fs, src);
    }
  }

  lemma FilterPieces(events: seq<Event>, filters: seq<Event>)
    requires NonNegative(events) && NonNegative(filters)
    ensures forall o :: o in Filtered(events, filters) ==> Piece(o, events, filters)
  {
    if events != [] && filters != [] {
      SortFacts(events);
      SortFacts(filters);
      var es, fs := SortByTimestamp(events), SortByTimestamp(filters);
      FilterFromPieces(es[0], es[1..], fs[0], fs[1..], events, filters, es[0]);
    }
  }

  lemma {:induction false} FilterFromApart(cur: Event, events: seq<Event>, f: Event, filters: seq<Event>)
    requires Apart(cur, events) && f.duration >= 0 && NonNegative(filters)
    ensures var out := FilterFrom(cur, events, f, filters);
            out != [] ==> cur.timestamp <= out[0].timestamp && Apart(out[0], out[1..])
    decreases |events| + |filters|, if EventDone(cur, f) || FilterDone(cur, f) then 0 else 1
  {
    if EventDone(cur, f) {
      if events != [] {
        FilterFromApart(events[0], events[1..], f, filters);
      }
    } else if FilterDone(cur, f) {
      if filters != [] {
        assert filters[0] in filters;
        FilterFromApart(cur, events, filters[0], filters[1..]);
      }
    } else {
      var e := Clip(cur, f);
      FilterFromApart(TrimTo(cur, e.End()), events, f, filters);
      var rest := FilterFrom(TrimTo(cur, e.End()), events, f, filters);
      assert ([e] + rest)[1..] == rest;
    }
  }

  // ---- What the output shows, instant by instant ----

  /** The filters from the first one on that ends no sooner than `m`. */
  function Live(fs: seq<Event>, m: int): seq<Event> {
    if fs == [] || fs[0].End() >= m then fs else Live(fs[1..], m)
  }

  function LiveAfter(fs: seq<Event>, e: Event): seq<Event> {
    if e.duration > 0 then Live(fs, e.End()) else fs
  }

  /** Each event is cut by the filters that no earlier event has outlived. */
  ghost predicate ShownBy(es: seq<Event>, fs: seq<Event>, t: int, d: Data) {
    es != [] && fs != [] &&
    ((es[0].Marks(t, d) && Covered(fs, t)) || ShownBy(es[1..], LiveAfter(fs, es[0]), t, d))
  }

  lemma NoFilterBefore(f: Event, filters: seq<Event>, t: int)
    requires Sorted([f] + filters) && t < f.timestamp
    ensures !Covered([f] + filters, t)
  {
    var all := [f] + filters;
    forall i | 0 <= i < |all| ensures !all[i].Covers(t) {
      assert all[0].timestamp <= all[i].timestamp;
    }
  }

  lemma SortedTail(f: Event, filters: seq<Event>)
    requires Sorted([f] + filters)
    ensures Sorted(filters)
  {
    var all := [f] + filters;
    forall i, j | 0 <= i < j < |filters| ensures filters[i].timestamp <= filters[j].timestamp {
      assert all[i + 1].timestamp <= all[j + 1].timestamp;
    }
  }

  lemma {:induction false} FilterFromExact(cur: Event, events: seq<Event>, f: Event, filters: seq<Event>, t: int,
      d: Data)
    requires cur.duration >= 0 && NonNegative(events) && f.duration >= 0 && NonNegative(filters)
    requires Sorted([f] + filters)
    ensures Shows(FilterFrom(cur, events, f, filters), t, d)
       <==> (cur.Marks(t, d) && Covered([f] + filters, t)) || ShownBy(events, LiveAfter([f] + filters, cur), t, d)
    decreases |events| + |filters|, if EventDone(cur, f) || FilterDone(cur, f) then 0 else 1
  {
    var all := [f] + filters;
    assert filters != [] ==> filters == [filters[0]] + filters[1..];
    hide Shows, Covered, Sorted;
    CoveredCons(f, filters, t);
    if t < f.timestamp { NoFilterBefore(f, filters, t); }
    if EventDone(cur, f) {
      assert LiveAfter(all, cur) == all;
      if events == [] {
        ShowsNone(t, d);
      } else {
        assert events[0] in events;
        FilterFromExact(events[0], events[1..], f, filters, t, d);
      }
    } else if FilterDone(cur, f) {
      assert all[1..] == filters;
      assert LiveAfter(all, cur) == LiveAfter(filters, cur);
      if filters == [] {
        ShowsNone(t, d);
        CoveredNone(t);
      } else {
        SortedTail(f, filters);
        assert filters[0] in filters;
        FilterFromExact(cur, events, filters[0], filters[1..], t, d);
      }
    } else {
      var e := Clip(cur, f);
      var cur' := TrimTo(cur, e.End());
      FilterFromExact(cur', events, f, filters, t, d);
      ShowsCons(e, FilterFrom(cur', events, f, filters), t, d);
      assert LiveAfter(all, cur) == LiveAfter(all, cur');
    }
  }

  lemma ShowsNone(t: int, d: Data)
    ensures !Shows([], t, d)
  {}

  lemma CoveredNone(t: int)
    ensures !Covered([], t)
  {}

  /** No earlier event of positive length ends after `f` does. */
  ghost predicate Outlasts(es: seq<Event>, f: Event, k: nat)
    requires k < |es|
  {
    forall i :: 0 <= i < k && es[i].duration > 0 ==> es[i].End() <= f.End()
  }

  /** The scan has not passed filter `j` when it reaches event `k`: it stops at
      the first filter that outlasts every earlier event. */
  ghost predicate StillLive(es: seq<Event>, fs: seq<Event>, k: nat, j: nat)
    requires k < |es| && j < |fs|
  {
    exists j' :: 0 <= j' <= j && Outlasts(es, fs[j'], k)
  }

  ghost predicate ShownAt(es: seq<Event>, fs: seq<Event>, k: nat, j: nat, t: int, d: Data) {
    k < |es| && j < |fs| && es[k].Marks(t, d) && fs[j].Covers(t) && StillLive(es, fs, k, j)
  }

  ghost predicate ShownSomewhere(es: seq<Event>, fs: seq<Event>, t: int, d: Data) {
    exists k: nat, j: nat :: ShownAt(es, fs, k, j, t, d)
  }

  /** `Live(fs, m)` is the suffix of `fs` that starts at its first element with an end of at least `m`. */
  lemma {:induction false} LiveSuffix(fs: seq<Event>, m: int) returns (n: nat)
    ensures n <= |fs| && Live(fs, m) == fs[n..]
    ensures n < |fs| ==> fs[n].End() >= m
    ensures forall j :: 0 <= j < n ==> fs[j].End() < m
  {
    if fs == [] || fs[0].End() >= m {
      n := 0;
    } else {
      var n' := LiveSuffix(fs[1..], m);
      n := n' + 1;
      assert fs[1..][n'..] == fs[n..];
      forall j | 0 <= j < n ensures fs[j].End() < m {
        if j > 0 { assert fs[1..][j - 1].End() < m; }
      }
    }
  }

  lemma LiveAfterSuffix(fs: seq<Event>, e: Event) returns (n: nat)
    ensures n <= |fs| && LiveAfter(fs, e) == fs[n..]
    ensures e.duration > 0 && n < |fs| ==> fs[n].End() >= e.End()
    ensures forall j :: 0 <= j < n ==> e.duration > 0 && fs[j].End() < e.End()
  {
    if e.duration > 0 { n := LiveSuffix(fs, e.End()); } else { n := 0; }
  }

  lemma OutlastsTail(es: seq<Event>, f: Event, k: nat)
    requires 0 < k < |es|
    ensures Outlasts(es, f, k) <==> Outlasts(es[1..], f, k - 1) && (es[0].duration > 0 ==> es[0].End() <= f.End())
  {
    if Outlasts(es, f, k) {
      forall i | 0 <= i < k - 1 && es[1..][i].duration > 0 ensures es[1..][i].End() <= f.End() {
        assert es[i + 1] == es[1..][i];
      }
    }
    if Outlasts(es[1..], f, k - 1) && (es[0].duration > 0 ==> es[0].End() <= f.End()) {
      forall i | 0 <= i < k && es[i].duration > 0 ensures es[i].End() <= f.End() {
        if i > 0 { assert es[1..][i - 1] == es[i]; }
      }
    }
  }

  /** Liveness for an event behind the first one is liveness in the tail, among
      the filters (from `n` on) that the first event leaves. */
  lemma StillLiveTail(es: seq<Event>, fs: seq<Event>, k: nat, j: nat, n: nat)
    requires 0 < k < |es| && j < |fs| && n <= |fs|
    requires n < |fs| && es[0].duration > 0 ==> fs[n].End() >= es[0].End()
    requires forall i :: 0 <= i < n ==> es[0].duration > 0 && fs[i].End() < es[0].End()
    ensures StillLive(es, fs, k, j) <==> n <= j && StillLive(es[1..], fs[n..], k - 1, j - n)
  {
    if StillLive(es, fs, k, j) {
      var j' :| 0 <= j' <= j && Outlasts(es, fs[j'], k);
      OutlastsTail(es, fs[j'], k);
      assert n <= j' && fs[n..][j' - n] == fs[j'];
    }
    if n <= j && StillLive(es[1..], fs[n..], k - 1, j - n) {
      var i :| 0 <= i <= j - n && Outlasts(es[1..], fs[n..][i], k - 1);
      var j' := if es[0].duration > 0 && fs[n + i].End() < es[0].End() then n else n + i;
      assert fs[n..][i] == fs[n + i];
      assert Outlasts(es[1..], fs[j'], k - 1);
      OutlastsTail(es, fs[j'], k);
    }
  }

  lemma {:induction false} ShownByClosed(es: seq<Event>, fs: seq<Event>, t: int, d: Data)
    ensures ShownBy(es, fs, t, d) <==> ShownSomewhere(es, fs, t, d)
    decreases |es|
  {
    if es != [] && fs != [] {
      var n := LiveAfterSuffix(fs, es[0]);
      var es', fs' := es[1..], fs[n..];
      ShownByClosed(es', fs', t, d);
      if es[0].Marks(t, d) && Covered(fs, t) {
        var f :| f in fs && f.Covers(t);
        var j :| 0 <= j < |fs| && fs[j] == f;
        assert Outlasts(es, fs[j], 0);
        assert ShownAt(es, fs, 0, j, t, d);
      }
      if k: nat, j: nat :| ShownAt(es', fs', k, j, t, d) {
        assert es'[k] == es[k + 1] && fs'[j] == fs[j + n];
        StillLiveTail(es, fs, k + 1, j + n, n);
        assert ShownAt(es, fs, k + 1, j + n, t, d);
      }
      if k: nat, j: nat :| ShownAt(es, fs, k, j, t, d) {
        if k == 0 {
          assert fs[j] in fs;
        } else {
          StillLiveTail(es, fs, k, j, n);
          assert es'[k - 1] == es[k] && fs'[j - n] == fs[j];
          assert ShownAt(es', fs', k - 1, j - n, t, d);
        }
      }
    }
  }

  /** What the output shows, for every input: `d` at `t` if and only if some
      event shows it there, under a filter that the scan has not passed yet. */
  lemma FilterExact(events: seq<Event>, filters: seq<Event>, t: int, d: Data)
    requires NonNegative(events) && NonNegative(filters)
    ensures Shows(Filtered(events, filters), t, d)
       <==> ShownSomewhere(SortByTimestamp(events), SortByTimestamp(filters), t, d)
  {
    var es, fs := SortByTimestamp(events), SortByTimestamp(filters);
    if es != [] && fs != [] {
      SortFacts(events);
      SortFacts(filters);
      assert es[0] in es && fs[0] in fs;
      var all := [fs[0]] + fs[1..];
      assert all == fs;
      FilterFromExact(es[0], es[1..], fs[0], fs[1..], t, d);
      ShownByClosed(es, fs, t, d);
    } else {
      assert Filtered(events, filters) == [];
    }
  }

  /** Instants are exact for every input, overlapping events included: one is
      covered by the output if and only if an event and a filter cover it. */
  lemma FilterCoverage(events: seq<Event>, filters: seq<Event>, t: int)
    requires NonNegative(events) && NonNegative(filters)
    ensures Covered(Filtered(events, filters), t) <==> Covered(events, t) && Covered(filters, t)
  {
    var out := Filtered(events, filters);
    FilterPieces(events, filters);
    if Covered(events, t) && Covered(filters, t) {
      var es, fs := SortByTimestamp(events), SortByTimestamp(filters);
      SortFacts(events);
      SortFacts(filters);
      CoveredSort(events, t);
      CoveredSort(filters, t);
      var k := FirstCovering(es, t);
      var j := FirstCovering(fs, t);
      assert Outlasts(es, fs[j], k) by {
        forall i | 0 <= i < k && es[i].duration > 0 ensures es[i].End() <= fs[j].End() {
          assert es[i].timestamp <= es[k].timestamp && !es[i].Covers(t);
        }
      }
      assert ShownAt(es, fs, k, j, t, es[k].data);
      FilterExact(events, filters, t, es[k].data);
      var o :| o in out && o.Marks(t, es[k].data);
    }
    if Covered(out, t) {
      var o :| o in out && o.Covers(t);
      var e, f :| e in events && f in filters && PieceOf(o, e, f);
      assert e.Covers(t) && f.Covers(t);
    }
  }

  lemma FirstCovering(es: seq<Event>, t: int) returns (k: nat)
    requires Covered(es, t)
    ensures k < |es| && es[k].Covers(t) && forall i :: 0 <= i < k ==> !es[i].Covers(t)
  {
    var e :| e in es && e.Covers(t);
    var n :| 0 <= n < |es| && es[n] == e;
    k := 0;
    while !es[k].Covers(t)
      invariant k <= n
      invariant forall i :: 0 <= i < k ==> !es[i].Covers(t)
      decreases n - k
    {
      k := k + 1;
    }
  }

  lemma FilterKeepsOrder(events: seq<Event>, filters: seq<Event>)
    requires NonNegative(events) && NonNegative(filters) && NonOverlapping(SortByTimestamp(events))
    ensures NonOverlapping(Filtered(events, filters))
  {
    if events != [] && filters != [] {
      var out := Filtered(events, filters);
      var es, fs := SortByTimestamp(events), SortByTimestamp(filters);
      SortFacts(events);
      SortFacts(filters);
      hide Sorted, SortByTimestamp, FilterFrom;
      assert es == [es[0]] + es[1..] && fs[0] in fs;
      ApartIsNonOverlapping(es[0], es[1..]);
      FilterFromApart(es[0], es[1..], fs[0], fs[1..]);
      if out != [] {
        assert out == [out[0]] + out[1..];
        ApartIsNonOverlapping(out[0], out[1..]);
      }
    }
  }

  /** Events that do not overlap lose nothing: the output is sorted and disjoint
      and shows each event's data exactly where a filter covers it. */
  lemma FilterNonOverlapping(events: seq<Event>, filters: seq<Event>, t: int, d: Data)
    requires NonNegative(events) && NonNegative(filters) && NonOverlapping(SortByTimestamp(events))
    ensures NonOverlapping(Filtered(events, filters))
    ensures Shows(Filtered(events, filters), t, d) <==> Shows(events, t, d) && Covered(filters, t)
  {
    hide Filtered, SortByTimestamp;
    FilterKeepsOrder(events, filters);
    FilterExact(events, filters, t, d);
    var es, fs := SortByTimestamp(events), SortByTimestamp(filters);
    SortFacts(events);
    SortFacts(filters);
    if Shows(events, t, d) && Covered(filters, t) {
      var e :| e in events && e.Marks(t, d);
      var f :| f in filters && f.Covers(t);
      assert e in es && f in fs;
      var k :| 0 <= k < |es| && es[k] == e;
      var j :| 0 <= j < |fs| && fs[j] == f;
      assert Outlasts(es, fs[j], k);
      assert ShownAt(es, fs, k, j, t, d);
    }
    if k: nat, j: nat :| ShownAt(es, fs, k, j, t, d) {
      assert es[k] in es && fs[j] in fs;
    }
  }

  /** An event that overlaps an earlier one can lose a period its filter grants:
      the scan never goes back to an earlier filter. */
  lemma OverlapLosesData()
    ensures exists events: seq<Event>, filters: seq<Event>, t: int, d: Data ::
        NonNegative(events) && NonNegative(filters)
        && Shows(events, t, d) && Covered(filters, t) && !Shows(Filtered(events, filters), t, d)
  {
    var a, b := Event(None, 0, 10, Json("a")), Event(None, 1, 1, Json("b"));
    var f, g := Event(None, 0, 3, EMPTY_DATA), Event(None, 5, 1, EMPTY_DATA);
    var events, filters := [a, b], [f, g];
    hide Filtered, SortByTimestamp;
    SortedIsFixed(events);
    SortedIsFixed(filters);
    FilterExact(events, filters, 1, b.data);
    assert b in events && b.Marks(1, b.data) && f in filters && f.Covers(1);
    forall k: nat, j: nat ensures !ShownAt(events, filters, k, j, 1, b.data) {
      assert events[0].End() == 10;
    }
  }
}
