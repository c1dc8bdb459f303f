/** The flood transform: small gaps between neighbouring events are filled, and
    neighbours that carry the same data are merged. */
module Flood {
  import opened Events

  function WidenLeft(e: Event, half: int): Event {
    e.(timestamp := e.timestamp - half, duration := e.duration + half)
  }

  function WidenRight(e: Event, half: int): Event {
    e.(duration := e.duration + half)
  }

  /** The hull of two events, kept under the first one's id and data. */
  function Hull(a: Event, b: Event): Event {
    var start := Min(a.timestamp, b.timestamp);
    a.(timestamp := start, duration := Max(a.End(), b.End()) - start)
  }

  /** What flooding makes of a head event followed by the rest of the list. */
  function FloodFrom(e1: Event, rest: seq<Event>, pulsetime: int): seq<Event>
    decreases |rest|
  {
    if rest == [] then [e1]
    else
      var e2, tail := rest[0], rest[1..];
      var gap := e2.timestamp - e1.End();
      if gap < pulsetime || gap < 0 then
        if e1.data == e2.data then FloodFrom(Hull(e1, e2), tail, pulsetime)
        else if gap < 0 then [e1] + FloodFrom(e2, tail, pulsetime)
        else [WidenRight(e1, gap / 2)] + FloodFrom(WidenLeft(e2, gap / 2), tail, pulsetime)
      else [e1] + FloodFrom(e2, tail, pulsetime)
  }

  function FloodSorted(es: seq<Event>, pulsetime: int): seq<Event> {
    if es == [] then [] else FloodFrom(es[0], es[1..], pulsetime)
  }

  function Flooded(es: seq<Event>, pulsetime: int): seq<Event> {
    FloodSorted(SortByTimestamp(es), pulsetime)
  }

  /** What the loop still has to produce: the event under retry or, failing
      that, the next one off the iterator, widened by the carried half gap. */
  ghost function Remaining(retry: Option<Event>, gapPrev: Option<int>, es: seq<Event>, pulsetime: int): seq<Event> {
    if retry.Some? then FloodFrom(retry.value, es, pulsetime)
    else if es == [] then []
    else if gapPrev.Some? then FloodFrom(WidenLeft(es[0], gapPrev.value / 2), es[1..], pulsetime)
    else FloodFrom(es[0], es[1..], pulsetime)
  }

  method FloodEvents(events: seq<Event>, pulsetime: int) returns (newEvents: seq<Event>)
    ensures newEvents == Flooded(events, pulsetime)
  {
    newEvents := [];
    var sorted := SortByTimestamp(events);
    var i := 0;
    var gapPrev: Option<int> := None;
    var retry: Option<Event> := None;
    assert sorted[0..] == sorted;
    ghost var todo := Flooded(events, pulsetime);
    while retry.Some? || i < |sorted|
      invariant 0 <= i <= |sorted|
      invariant retry.Some? ==> gapPrev.None?
      invariant todo == Remaining(retry, gapPrev, sorted[i..], pulsetime)
      invariant newEvents + todo == Flooded(events, pulsetime)
      decreases 2 * (|sorted| - i) + if retry.Some? then 1 else 0
    {
      var e1: Event;
      if retry.Some? {
        e1 := retry.value;
        retry := None;
      } else {
        assert sorted[i..][1..] == sorted[i + 1..];
        e1 := sorted[i];
        i := i + 1;
      }
      if gapPrev.Some? {
        e1 := WidenLeft(e1, gapPrev.value / 2);
        gapPrev := None;
      }
      ghost var rest := sorted[i..];
      assert todo == FloodFrom(e1, rest, pulsetime);
      if i == |sorted| {
        newEvents, todo := newEvents + [e1], [];
        break;
      }
      var e2 := sorted[i];
      assert e2 == rest[0] && rest[1..] == sorted[i + 1..];
      var gap := e2.timestamp - e1.End();
      if gap < 0 {
        if e1.data == e2.data {
          i := i + 1;
          retry := Some(Hull(e1, e2));
          continue;
        }
      } else if gap < pulsetime {
        if e1.data == e2.data {
          i := i + 1;
          retry := Some(Hull(e1, e2));
          continue;
        } else {
          e1 := WidenRight(e1, gap / 2);
          gapPrev := Some(gap);
        }
      }
      ghost var after := Remaining(None, gapPrev, rest, pulsetime);
      assert todo == [e1] + after;
      AppendHead(newEvents, e1, after);
      newEvents, todo := newEvents + [e1], after;
    }
  }

  // ---- Shape of the output: sorted, settled, idempotent ----

  /** Flooding has nothing left to do between neighbours `a` and `b`: they
      overlap under different data, or their gap is at least the pulsetime, or
      it is the odd nanosecond that halving a gap leaves over. */
  predicate Settled(a: Event, b: Event, pulsetime: int) {
    var gap := b.timestamp - a.End();
    (gap < pulsetime || gap < 0) ==> a.data != b.data && gap <= 1
  }

  ghost predicate AllSettled(es: seq<Event>, pulsetime: int) {
    forall i :: 0 <= i < |es| - 1 ==> Settled(es[i], es[i + 1], pulsetime)
  }

  /** The head precedes everything after it, in start order. */
  ghost predicate Heads(e1: Event, rest: seq<Event>) {
    Sorted(rest) && (rest != [] ==> e1.timestamp <= rest[0].timestamp)
  }

  /** The head that the rest of the list is flooded behind, after `e1` met `e2`. */
  function NextHead(e1: Event, e2: Event, pulsetime: int): Event {
    var gap := e2.timestamp - e1.End();
    if gap >= pulsetime && gap >= 0 then e2
    else if e1.data == e2.data then Hull(e1, e2)
    else if gap < 0 then e2
    else WidenLeft(e2, gap / 2)
  }

  /** Where two events are widened towards each other, the second one's new start
      does not pass the first one's: a backwards event is no longer than the way to
      the next start (give or take the odd nanosecond). */
  predicate NoOvershoot(e1: Event, rest: seq<Event>, pulsetime: int)
    decreases |rest|
  {
    rest == [] ||
    var e2 := rest[0];
    var widened := 0 <= e2.timestamp - e1.End() < pulsetime && e1.data != e2.data;
    && (widened ==> e1.timestamp - e1.End() <= e2.timestamp - e1.timestamp + 1)
    && NoOvershoot(NextHead(e1, e2, pulsetime), rest[1..], pulsetime)
  }

  predicate Orderly(events: seq<Event>, pulsetime: int) {
    var es := SortByTimestamp(events);
    es == [] || NoOvershoot(es[0], es[1..], pulsetime)
  }

  lemma SettledCons(e: Event, es: seq<Event>, pulsetime: int)
    requires AllSettled(es, pulsetime) && es != [] && Settled(e, es[0], pulsetime)
    ensures AllSettled([e] + es, pulsetime)
    ensures Sorted([e] + es) <==> e.timestamp <= es[0].timestamp && Sorted(es)
  {
    var out := [e] + es;
    forall i | 0 <= i < |out| - 1 ensures Settled(out[i], out[i + 1], pulsetime) {
      if i > 0 { assert Settled(es[i - 1], es[i], pulsetime); }
    }
    if Sorted(out) {
      assert out[0].timestamp <= out[1].timestamp;
      forall i, j | 0 <= i < j < |es| ensures es[i].timestamp <= es[j].timestamp {
        assert out[i + 1].timestamp <= out[j + 1].timestamp;
      }
    }
  }

  lemma {:induction false} FloodFromShape(e1: Event, rest: seq<Event>, pulsetime: int)
    requires Heads(e1, rest)
    ensures var out := FloodFrom(e1, rest, pulsetime);
            && out != [] && out[0].timestamp == e1.timestamp && out[0].data == e1.data
            && AllSettled(out, pulsetime) && (Sorted(out) <==> NoOvershoot(e1, rest, pulsetime))
    decreases |rest|
  {
    hide AllSettled;
    if rest == [] {
      OneIsSettled(e1, pulsetime);
    } else {
      var e2, tail := rest[0], rest[1..];
      var gap := e2.timestamp - e1.End();
      var head := NextHead(e1, e2, pulsetime);
      FloodFromShape(head, tail, pulsetime);
      var out' := FloodFrom(head, tail, pulsetime);
      if !(gap < pulsetime || gap < 0) || e1.data != e2.data {
        SettledCons(if 0 <= gap < pulsetime then WidenRight(e1, gap / 2) else e1, out', pulsetime);
      }
    }
  }

  lemma OneIsSettled(e: Event, pulsetime: int)
    ensures AllSettled([e], pulsetime)
  {}

  lemma {:induction false} FloodFromNonNegative(e1: Event, rest: seq<Event>, pulsetime: int)
    requires Heads(e1, rest) && e1.duration >= 0 && NonNegative(rest)
    ensures NonNegative(FloodFrom(e1, rest, pulsetime)) && NoOvershoot(e1, rest, pulsetime)
    decreases |rest|
  {
    if rest != [] { FloodFromNonNegative(NextHead(e1, rest[0], pulsetime), rest[1..], pulsetime); }
  }

  lemma {:induction false} SettledIsFixed(e1: Event, rest: seq<Event>, pulsetime: int)
    requires AllSettled([e1] + rest, pulsetime)
    ensures FloodFrom(e1, rest, pulsetime) == [e1] + rest
    decreases |rest|
  {
    if rest != [] {
      var all := [e1] + rest;
      assert Settled(all[0], all[1], pulsetime);
      forall i | 0 <= i < |rest| - 1 ensures Settled(rest[i], rest[i + 1], pulsetime) {
        assert Settled(all[i + 1], all[i + 2], pulsetime);
      }
      assert [rest[0]] + rest[1..] == rest;
      SettledIsFixed(rest[0], rest[1..], pulsetime);
    }
  }

  /** For every input: the only gaps left below the pulsetime are single odd
      nanoseconds between different data, and the output is sorted if and only if
      no widening overshoots. Durations that are not negative never do, and stay so. */
  lemma FloodShape(events: seq<Event>, pulsetime: int)
    ensures var out := Flooded(events, pulsetime);
            && AllSettled(out, pulsetime) && (Sorted(out) <==> Orderly(events, pulsetime))
            && (NonNegative(events) ==> Orderly(events, pulsetime) && NonNegative(out))
  {
    SortFacts(events);
    var s := SortByTimestamp(events);
    if s != [] {
      FloodFromShape(s[0], s[1..], pulsetime);
      if NonNegative(events) { FloodFromNonNegative(s[0], s[1..], pulsetime); }
    }
  }

  /** Flooding twice is flooding once, for overlapping inputs too. */
  lemma FloodIsIdempotent(events: seq<Event>, pulsetime: int)
    requires Orderly(events, pulsetime)
    ensures Flooded(Flooded(events, pulsetime), pulsetime) == Flooded(events, pulsetime)
  {
    FloodShape(events, pulsetime);
    var out := Flooded(events, pulsetime);
    SortedIsFixed(out);
    if out != [] {
      assert [out[0]] + out[1..] == out;
      SettledIsFixed(out[0], out[1..], pulsetime);
    }
  }

  /** A negative duration, which event parsing lets through, breaks the order:
      half of the gap behind a backwards event reaches past its own start. */
  lemma NegativeDurationBreaksOrder()
    ensures exists a: Event, b: Event :: !Sorted(Flooded([a, b], 20))
  {
    var a := Event(None, 10, -5, Json("a"));
    var b := Event(None, 10, 1, Json("b"));
    assert Sorted([a, b]);
    SortedIsFixed([a, b]);
    assert [a, b][1..] == [b];
    var out := FloodFrom(a, [b], 20);
    assert out == [WidenRight(a, 2), WidenLeft(b, 2)] by {
      assert [b][1..] == [];
      assert FloodFrom(WidenLeft(b, 2), [], 20) == [WidenLeft(b, 2)];
    }
    assert out[1].timestamp < out[0].timestamp;
  }

  // ---- What the output shows, instant by instant ----

  /** Every input interval lies inside one output event with the same data. */
  ghost predicate Keeps(es: seq<Event>, out: seq<Event>) {
    forall e :: e in es ==> exists o :: o in out && e.Within(o)
  }

  lemma {:induction false} FloodFromKeeps(e1: Event, rest: seq<Event>, pulsetime: int)
    requires Heads(e1, rest)
    ensures Keeps([e1] + rest, FloodFrom(e1, rest, pulsetime))
    decreases |rest|
  {
    var out := FloodFrom(e1, rest, pulsetime);
    if rest == [] {
      assert e1 in out && e1.Within(e1);
    } else {
      var e2, tail := rest[0], rest[1..];
      var gap := e2.timestamp - e1.End();
      var merged := (gap < pulsetime || gap < 0) && e1.data == e2.data;
      var widened := !merged && 0 <= gap < pulsetime;
      var head := if merged then Hull(e1, e2) else if widened then WidenLeft(e2, gap / 2) else e2;
      FloodFromKeeps(head, tail, pulsetime);
      var out' := FloodFrom(head, tail, pulsetime);
      assert forall o :: o in out' ==> o in out;
      forall e | e in [e1] + rest ensures exists o :: o in out && e.Within(o) {
        assert head in [head] + tail;
        var h :| h in out' && head.Within(h);
        if e in tail {
          assert e in [head] + tail;
          var o :| o in out' && e.Within(o);
        } else if e == e2 || merged {
          assert e.Within(head) && e.Within(h);
        } else {
          assert e == e1;
          var o := if widened then WidenRight(e1, gap / 2) else e1;
          assert o in out && e1.Within(o);
        }
      }
    }
  }

  /** Instant `t` lies in a gap, shorter than the pulsetime, between an event's
      end and an event's start, and `d` is the data of the side `t` belongs to:
      of both when they agree, else of the near half. */
  ghost predicate Fills(a: Event, b: Event, t: int, d: Data, pulsetime: int) {
    var gap := b.timestamp - a.End();
    && a.End() <= t < b.timestamp && gap < pulsetime
    && if a.data == b.data then d == a.data
       else (d == a.data && t < a.End() + gap / 2) || (d == b.data && b.timestamp - gap / 2 <= t)
  }

  ghost predicate Filled(es: seq<Event>, t: int, d: Data, pulsetime: int) {
    exists a, b :: a in es && b in es && Fills(a, b, t, d, pulsetime)
  }

  /** All that `e` shows comes from `es`: from its events, or from a filled gap. */
  ghost predicate Accounted(e: Event, es: seq<Event>, pulsetime: int) {
    forall t :: e.Covers(t) ==> Shows(es, t, e.data) || Filled(es, t, e.data, pulsetime)
  }

  lemma FillAccounted(es: seq<Event>, a: Event, b: Event, pulsetime: int)
    requires a in es && b in es && 0 <= b.timestamp - a.End() < pulsetime
    ensures forall t :: a.data == b.data && a.End() <= t < b.timestamp ==> Filled(es, t, a.data, pulsetime)
    ensures forall t :: a.data != b.data && a.End() <= t < a.End() + (b.timestamp - a.End()) / 2
              ==> Filled(es, t, a.data, pulsetime)
    ensures forall t :: a.data != b.data && b.timestamp - (b.timestamp - a.End()) / 2 <= t < b.timestamp
              ==> Filled(es, t, b.data, pulsetime)
  {
    forall t, d | Fills(a, b, t, d, pulsetime) ensures Filled(es, t, d, pulsetime) {}
    assert forall t :: a.data == b.data && a.End() <= t < b.timestamp ==> Fills(a, b, t, a.data, pulsetime);
    assert forall t :: a.data != b.data && a.End() <= t < a.End() + (b.timestamp - a.End()) / 2
              ==> Fills(a, b, t, a.data, pulsetime);
    assert forall t :: a.data != b.data && b.timestamp - (b.timestamp - a.End()) / 2 <= t < b.timestamp
              ==> Fills(a, b, t, b.data, pulsetime);
  }

  lemma MemberAccounted(e: Event, es: seq<Event>, pulsetime: int)
    requires e in es
    ensures Accounted(e, es, pulsetime)
  {}

  /** `last` is the input event whose end the head event carries. */
  lemma {:induction false} FloodFromAccounted(e1: Event, rest: seq<Event>, pulsetime: int, es: seq<Event>, last: Event)
    requires Heads(e1, rest)
    requires forall e :: e in rest ==> e in es
    requires Accounted(e1, es, pulsetime) && last in es && last.End() == e1.End() && last.data == e1.data
    ensures forall o :: o in FloodFrom(e1, rest, pulsetime) ==> Accounted(o, es, pulsetime)
    decreases |rest|
  {
    if rest != [] {
      var e2, tail := rest[0], rest[1..];
      var gap := e2.timestamp - e1.End();
      MemberAccounted(e2, es, pulsetime);
      if 0 <= gap < pulsetime { FillAccounted(es, last, e2, pulsetime); }
      if (gap < pulsetime || gap < 0) && e1.data == e2.data {
        var hull := Hull(e1, e2);
        forall t | hull.Covers(t) ensures Shows(es, t, hull.data) || Filled(es, t, hull.data, pulsetime) {
          assert e1.Covers(t) || e2.Covers(t) || e1.End() <= t < e2.timestamp;
        }
        FloodFromAccounted(hull, tail, pulsetime, es, if e2.End() > e1.End() then e2 else last);
      } else if 0 <= gap < pulsetime {
        var wide := WidenLeft(e2, gap / 2);
        forall t | wide.Covers(t) ensures Shows(es, t, wide.data) || Filled(es, t, wide.data, pulsetime) {
          assert e2.Covers(t) || wide.timestamp <= t < e2.timestamp;
        }
        FloodFromAccounted(wide, tail, pulsetime, es, e2);
        var out := WidenRight(e1, gap / 2);
        forall t | out.Covers(t) ensures Shows(es, t, out.data) || Filled(es, t, out.data, pulsetime) {
          assert e1.Covers(t) || e1.End() <= t < out.End();
        }
      } else {
        FloodFromAccounted(e2, tail, pulsetime, es, e2);
      }
    }
  }

  /** Flooding keeps what was shown and invents nothing: an instant shows data
      `d` only if an input event showed it there, or the instant lies in a gap
      shorter than the pulsetime on the side of an input event with data `d`. */
  lemma FloodCoverage(events: seq<Event>, pulsetime: int, t: int, d: Data)
    ensures Keeps(events, Flooded(events, pulsetime))
    ensures Shows(events, t, d) ==> Shows(Flooded(events, pulsetime), t, d)
    ensures Shows(Flooded(events, pulsetime), t, d) ==> Shows(events, t, d) || Filled(events, t, d, pulsetime)
  {
    SortFacts(events);
    var s := SortByTimestamp(events);
    if s != [] {
      assert s == [s[0]] + s[1..];
      FloodFromKeeps(s[0], s[1..], pulsetime);
      MemberAccounted(s[0], events, pulsetime);
      FloodFromAccounted(s[0], s[1..], pulsetime, events, s[0]);
    }
    var out := Flooded(events, pulsetime);
    if Shows(events, t, d) {
      var e :| e in events && e.Marks(t, d);
      assert e in s;
      var o :| o in out && e.Within(o);
      assert o.Marks(t, d);
    }
  }

  // ---- Inputs that do not overlap: the output exactly ----

  lemma {:induction false} FloodFromApart(e1: Event, rest: seq<Event>, pulsetime: int)
    requires Apart(e1, rest)
    ensures var out := FloodFrom(e1, rest, pulsetime);
            out != [] && out[0].timestamp == e1.timestamp && Apart(out[0], out[1..])
    decreases |rest|
  {
    if rest != [] {
      var head := NextHead(e1, rest[0], pulsetime);
      assert Apart(head, rest[1..]);
      FloodFromApart(head, rest[1..], pulsetime);
    }
  }

  /** `t` lies in the gap between two neighbours of `es`, on `d`'s side. */
  ghost predicate FilledNext(es: seq<Event>, t: int, d: Data, pulsetime: int) {
    exists i :: 0 <= i < |es| - 1 && Fills(es[i], es[i + 1], t, d, pulsetime)
  }

  lemma FilledNextCons(e1: Event, e2: Event, tail: seq<Event>, head: Event, t: int, d: Data, pulsetime: int)
    requires head.End() == e2.End() && head.data == e2.data
    ensures FilledNext([e1] + ([e2] + tail), t, d, pulsetime)
       <==> Fills(e1, e2, t, d, pulsetime) || FilledNext([head] + tail, t, d, pulsetime)
  {
    var all, all' := [e1] + ([e2] + tail), [head] + tail;
    assert forall i :: 1 <= i < |all| - 1 ==>
        (Fills(all[i], all[i + 1], t, d, pulsetime) <==> Fills(all'[i - 1], all'[i], t, d, pulsetime));
    if FilledNext(all', t, d, pulsetime) {
      var i :| 0 <= i < |all'| - 1 && Fills(all'[i], all'[i + 1], t, d, pulsetime);
      assert Fills(all[i + 1], all[i + 2], t, d, pulsetime);
    }
    if Fills(e1, e2, t, d, pulsetime) {
      assert Fills(all[0], all[1], t, d, pulsetime);
    }
  }

  /** One round of the loop, instant by instant. */
  lemma RoundExact(e1: Event, e2: Event, pulsetime: int, t: int, d: Data)
    requires e1.duration >= 0 && e2.duration >= 0 && e1.End() <= e2.timestamp
    ensures var gap := e2.timestamp - e1.End();
            var head := NextHead(e1, e2, pulsetime);
            var before := e1.Marks(t, d) || e2.Marks(t, d) || Fills(e1, e2, t, d, pulsetime);
            if gap >= pulsetime then before == (e1.Marks(t, d) || head.Marks(t, d))
            else if e1.data == e2.data then before == head.Marks(t, d)
            else before == (WidenRight(e1, gap / 2).Marks(t, d) || head.Marks(t, d))
  {}

  lemma ApartNext(e1: Event, rest: seq<Event>, pulsetime: int)
    requires Apart(e1, rest) && rest != []
    ensures e1.duration >= 0 && rest[0].duration >= 0 && e1.End() <= rest[0].timestamp
    ensures Apart(NextHead(e1, rest[0], pulsetime), rest[1..])
  {}

  lemma FloodStep(e1: Event, rest: seq<Event>, pulsetime: int)
    requires rest != []
    ensures var gap := rest[0].timestamp - e1.End();
            var after := FloodFrom(NextHead(e1, rest[0], pulsetime), rest[1..], pulsetime);
            FloodFrom(e1, rest, pulsetime) ==
              if (gap < pulsetime || gap < 0) && e1.data == rest[0].data then after
              else [if 0 <= gap < pulsetime then WidenRight(e1, gap / 2) else e1] + after
  {}

  lemma NextEnd(e1: Event, rest: seq<Event>, pulsetime: int)
    requires rest != [] && e1.duration >= 0 && rest[0].duration >= 0 && e1.End() <= rest[0].timestamp
    ensures var head := NextHead(e1, rest[0], pulsetime); head.End() == rest[0].End() && head.data == rest[0].data
  {}

  lemma {:induction false} FloodFromExact(e1: Event, rest: seq<Event>, pulsetime: int, t: int, d: Data)
    requires Apart(e1, rest)
    ensures Shows(FloodFrom(e1, rest, pulsetime), t, d)
       <==> Shows([e1] + rest, t, d) || FilledNext([e1] + rest, t, d, pulsetime)
    decreases |rest|
  {
    hide Shows, FilledNext, Fills, Event.Marks, Apart, NextHead, WidenRight;
    if rest == [] {
      assert [e1] + rest == [e1];
      NoGap(e1, t, d, pulsetime);
    } else {
      ApartNext(e1, rest, pulsetime);
      NextEnd(e1, rest, pulsetime);
      FloodStep(e1, rest, pulsetime);
      hide FloodFrom;
      var e2, tail := rest[0], rest[1..];
      var gap := e2.timestamp - e1.End();
      var head := NextHead(e1, e2, pulsetime);
      assert [e2] + tail == rest;
      RoundExact(e1, e2, pulsetime, t, d);
      FloodFromExact(head, tail, pulsetime, t, d);
      FilledNextCons(e1, e2, tail, head, t, d, pulsetime);
      ShowsCons(e1, rest, t, d);
      ShowsCons(e2, tail, t, d);
      ShowsCons(head, tail, t, d);
      if gap >= pulsetime {
        ShowsCons(e1, FloodFrom(head, tail, pulsetime), t, d);
      } else if e1.data != e2.data {
        ShowsCons(WidenRight(e1, gap / 2), FloodFrom(head, tail, pulsetime), t, d);
      }
    }
  }

  lemma NoGap(e: Event, t: int, d: Data, pulsetime: int)
    ensures !FilledNext([e], t, d, pulsetime)
  {}

  /** When the sorted input does not overlap, neither does the output, and the
      output shows `d` at `t` if and only if the input did, or `t` lies on `d`'s
      side of the gap between two neighbours less than the pulsetime apart. */
  lemma FloodExact(events: seq<Event>, pulsetime: int, t: int, d: Data)
    requires NonNegative(events) && NonOverlapping(SortByTimestamp(events))
    ensures NonOverlapping(Flooded(events, pulsetime))
    ensures Shows(Flooded(events, pulsetime), t, d)
       <==> Shows(events, t, d) || FilledNext(SortByTimestamp(events), t, d, pulsetime)
  {
    SortFacts(events);
    ShowsSort(events, t, d);
    var s := SortByTimestamp(events);
    if s != [] {
      hide Shows, FilledNext, Fills, FloodFrom, Apart, NonOverlapping, Sorted;
      assert s == [s[0]] + s[1..];
      FloodOfApart(s[0], s[1..], pulsetime, t, d);
    }
  }

  lemma FloodOfApart(e1: Event, rest: seq<Event>, pulsetime: int, t: int, d: Data)
    requires NonNegative([e1] + rest) && NonOverlapping([e1] + rest)
    ensures NonOverlapping(FloodFrom(e1, rest, pulsetime))
    ensures Shows(FloodFrom(e1, rest, pulsetime), t, d)
       <==> Shows([e1] + rest, t, d) || FilledNext([e1] + rest, t, d, pulsetime)
  {
    ApartIsNonOverlapping(e1, rest);
    hide Shows, FilledNext, FloodFrom, Apart, NonOverlapping;
    FloodFromApart(e1, rest, pulsetime);
    FloodFromExact(e1, rest, pulsetime, t, d);
    var out := FloodFrom(e1, rest, pulsetime);
    assert out == [out[0]] + out[1..];
    ApartIsNonOverlapping(out[0], out[1..]);
  }
}
