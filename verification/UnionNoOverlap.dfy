/** union_no_overlap: merges two event lists, the first one taking precedence. */
module UnionNoOverlap {
  import opened Events
  import opened TimeIntervals

  /** Cuts `e` in two at `t`, if `t` lies strictly inside it. */
  function SplitEvent(e: Event, t: int): (Event, Option<Event>) {
    if e.timestamp < t < e.End() then
      (Event(None, e.timestamp, t - e.timestamp, e.data),
       Some(Event(None, t, e.duration - (t - e.timestamp), e.data)))
    else (e, None)
  }

  function Prepend(e: Option<Event>, es: seq<Event>): seq<Event> {
    if e.Some? then [e.value] + es else es
  }

  /** One round: the event to push, and what then remains of the two lists. */
  function Step(es1: seq<Event>, es2: seq<Event>): (Event, seq<Event>, seq<Event>)
    requires es1 != [] && es2 != []
  {
    var e1, e2 := es1[0], es2[0];
    if Overlap(e1, e2) then
      if e1.timestamp <= e2.timestamp then
        (e1, es1[1..], Prepend(SplitEvent(e2, e1.End()).1, es2[1..]))
      else
        var (before, after) := SplitEvent(e2, e1.timestamp);
        (before, es1, Prepend(after, es2[1..]))
    else if e1.timestamp <= e2.timestamp then (e1, es1[1..], es2)
    else (e2, es1, es2[1..])
  }

  function UnionFrom(es1: seq<Event>, es2: seq<Event>): seq<Event>
    decreases |es1| + |es2|, if es1 != [] && es2 != [] && es2[0].timestamp < es1[0].timestamp then 1 else 0
  {
    if es1 == [] || es2 == [] then es1 + es2
    else
      var (e, rest1, rest2) := Step(es1, es2);
      [e] + UnionFrom(rest1, rest2)
  }

  lemma UnionStep(es1: seq<Event>, es2: seq<Event>)
    ensures UnionFrom(es1, es2) == if es1 == [] || es2 == [] then es1 + es2
      else [Step(es1, es2).0] + UnionFrom(Step(es1, es2).1, Step(es1, es2).2)
  {}

  lemma CutStart(e: Event, t: int)
    ensures var after := SplitEvent(e, t).1; after.Some? ==> after.value.timestamp == t
  {}

  lemma Tail(es: seq<Event>, i: nat)
    requires i < |es|
    ensures es[i..][0] == es[i] && es[i..][1..] == es[i + 1..]
  {}

  // What each branch of the loop does to the slices that are still to be walked.

  lemma TakeFirst(es1: seq<Event>, i1: nat, es2: seq<Event>, i2: nat)
    requires i1 < |es1| && i2 < |es2| && !Overlap(es1[i1], es2[i2]) && es1[i1].timestamp <= es2[i2].timestamp
    ensures Step(es1[i1..], es2[i2..]) == (es1[i1], es1[i1 + 1..], es2[i2..])
  {
    hide Overlap, SplitEvent;
    Tail(es1, i1);
    Tail(es2, i2);
  }

  lemma TakeSecond(es1: seq<Event>, i1: nat, es2: seq<Event>, i2: nat)
    requires i1 < |es1| && i2 < |es2| && !Overlap(es1[i1], es2[i2]) && es1[i1].timestamp > es2[i2].timestamp
    ensures Step(es1[i1..], es2[i2..]) == (es2[i2], es1[i1..], es2[i2 + 1..])
  {
    hide Overlap, SplitEvent;
    Tail(es1, i1);
    Tail(es2, i2);
  }

  lemma CutSecond(es1: seq<Event>, i1: nat, es2: seq<Event>, i2: nat)
    requires i1 < |es1| && i2 < |es2| && Overlap(es1[i1], es2[i2]) && es1[i1].timestamp <= es2[i2].timestamp
    ensures var next := SplitEvent(es2[i2], es1[i1].End()).1;
            Step(es1[i1..], es2[i2..]) ==
              (es1[i1], es1[i1 + 1..], if next.Some? then es2[i2 := next.value][i2..] else es2[i2 + 1..])
  {
    hide Overlap, SplitEvent;
    Tail(es1, i1);
    Tail(es2, i2);
    var next := SplitEvent(es2[i2], es1[i1].End()).1;
    if next.Some? { assert es2[i2 := next.value][i2..] == [next.value] + es2[i2 + 1..]; }
  }

  lemma SplitSecond(es1: seq<Event>, i1: nat, es2: seq<Event>, i2: nat)
    requires i1 < |es1| && i2 < |es2| && Overlap(es1[i1], es2[i2]) && es1[i1].timestamp > es2[i2].timestamp
    ensures var (before, after) := SplitEvent(es2[i2], es1[i1].timestamp);
            Step(es1[i1..], es2[i2..]) ==
              (before, es1[i1..],
               if after.Some? then (es2[..i2 + 1] + [after.value] + es2[i2 + 1..])[i2 + 1..] else es2[i2 + 1..])
  {
    hide Overlap, SplitEvent;
    Tail(es1, i1);
    Tail(es2, i2);
    var after := SplitEvent(es2[i2], es1[i1].timestamp).1;
    if after.Some? {
      assert (es2[..i2 + 1] + [after.value] + es2[i2 + 1..])[i2 + 1..] == [after.value] + es2[i2 + 1..];
    }
  }

  /** One round of the loop: what was pushed, and what is still to come. */
  lemma RoundDone(union: seq<Event>, es1: seq<Event>, es2: seq<Event>, whole: seq<Event>)
    requires union + UnionFrom(es1, es2) == whole && es1 != [] && es2 != []
    ensures var (e, rest1, rest2) := Step(es1, es2); union + [e] + UnionFrom(rest1, rest2) == whole
  {
    hide Step;
    var (e, rest1, rest2) := Step(es1, es2);
    UnionStep(es1, es2);
    AppendHead(union, e, UnionFrom(rest1, rest2));
  }

  lemma NothingPushed(es1: seq<Event>, es2: seq<Event>)
    ensures [] + UnionFrom(es1[0..], es2[0..]) == UnionFrom(es1, es2)
  {
    assert es1[0..] == es1 && es2[0..] == es2;
  }

  /** `events2` is rewritten and grown while it is walked; the loop ends all the
      same, since a cut-off rest starts no earlier than the first list's head. */
  method UnionEvents(events1: seq<Event>, events2: seq<Event>) returns (union: seq<Event>)
    ensures union == UnionFrom(events1, events2)
  {
    hide UnionFrom, Step, Overlap, SplitEvent;
    union := [];
    var es2 := events2;
    var i1, i2 := 0, 0;
    NothingPushed(events1, events2);
    while i1 < |events1| && i2 < |es2|
      invariant 0 <= i1 <= |events1| && 0 <= i2 <= |es2|
      invariant union + UnionFrom(events1[i1..], es2[i2..]) == UnionFrom(events1, events2)
      decreases |events1| - i1 + |es2| - i2,
                if i1 < |events1| && i2 < |es2| && es2[i2].timestamp < events1[i1].timestamp then 1 else 0
    {
      var e1, e2 := events1[i1], es2[i2];
      RoundDone(union, events1[i1..], es2[i2..], UnionFrom(events1, events2));
      if Overlap(e1, e2) {
        if e1.timestamp <= e2.timestamp {
          CutSecond(events1, i1, es2, i2);
          union := union + [e1];
          i1 := i1 + 1;
          var (_, next) := SplitEvent(e2, e1.End());
          if next.Some? {
            es2 := es2[i2 := next.value];
          } else {
            i2 := i2 + 1;
          }
        } else {
          SplitSecond(events1, i1, es2, i2);
          CutStart(e2, e1.timestamp);
          var (before, after) := SplitEvent(e2, e1.timestamp);
          union := union + [before];
          i2 := i2 + 1;
          if after.Some? {
            es2 := es2[..i2] + [after.value] + es2[i2..];
          }
        }
      } else if e1.timestamp <= e2.timestamp {
        TakeFirst(events1, i1, es2, i2);
        union := union + [e1];
        i1 := i1 + 1;
      } else {
        TakeSecond(events1, i1, es2, i2);
        union := union + [e2];
        i2 := i2 + 1;
      }
    }
    UnionStep(events1[i1..], es2[i2..]);
    union := union + events1[i1..] + es2[i2..];
  }

  // ---- Every instant is kept, and the first list verbatim ----

  lemma StepShows(es1: seq<Event>, es2: seq<Event>, t: int, d: Data)
    requires es1 != [] && es2 != []
    ensures var (e, rest1, rest2) := Step(es1, es2);
            && (e.Covers(t) || Covered(rest1, t) || Covered(rest2, t) <==> Covered(es1, t) || Covered(es2, t))
            && (e.Marks(t, d) || Shows(rest1, t, d) || Shows(rest2, t, d) ==> Shows(es1, t, d) || Shows(es2, t, d))
  {
    hide Covered, Shows;
    var e1, e2, tail1, tail2 := es1[0], es2[0], es1[1..], es2[1..];
    assert es1 == [e1] + tail1 && es2 == [e2] + tail2;
    CoveredCons(e1, tail1, t);
    CoveredCons(e2, tail2, t);
    ShowsCons(e1, tail1, t, d);
    ShowsCons(e2, tail2, t, d);
    if Overlap(e1, e2) {
      var cut := SplitEvent(e2, if e1.timestamp <= e2.timestamp then e1.End() else e1.timestamp).1;
      if cut.Some? {
        CoveredCons(cut.value, tail2, t);
        ShowsCons(cut.value, tail2, t, d);
      }
    }
  }

  /** For any two lists, sorted or not: the union covers the instants that the
      inputs cover, and shows nothing there that neither of them shows. */
  lemma {:induction false} UnionCoverage(es1: seq<Event>, es2: seq<Event>, t: int, d: Data)
    ensures Covered(UnionFrom(es1, es2), t) <==> Covered(es1, t) || Covered(es2, t)
    ensures Shows(UnionFrom(es1, es2), t, d) ==> Shows(es1, t, d) || Shows(es2, t, d)
    decreases |es1| + |es2|, if es1 != [] && es2 != [] && es2[0].timestamp < es1[0].timestamp then 1 else 0
  {
    hide Covered, Shows;
    if es1 == [] || es2 == [] {
      CoveredConcat(es1, es2, t);
      ShowsConcat(es1, es2, t, d);
    } else {
      var (e, rest1, rest2) := Step(es1, es2);
      StepShows(es1, es2, t, d);
      UnionCoverage(rest1, rest2, t, d);
      CoveredCons(e, UnionFrom(rest1, rest2), t);
      ShowsCons(e, UnionFrom(rest1, rest2), t, d);
    }
  }

  predicate Subsequence(a: seq<Event>, b: seq<Event>)
    decreases |b|
  {
    a == [] || (b != [] && ((a[0] == b[0] && Subsequence(a[1..], b[1..])) || Subsequence(a, b[1..])))
  }

  lemma {:induction false} PrefixIsSubsequence(a: seq<Event>, b: seq<Event>)
    ensures Subsequence(a, a + b)
  {
    if a != [] {
      PrefixIsSubsequence(a[1..], b);
      assert (a + b)[1..] == a[1..] + b;
    }
  }

  /** The first list's events come out verbatim and in order; anything else that
      comes out lies inside an event of the second list, with its data. */
  lemma {:induction false} UnionKeepsFirst(es1: seq<Event>, es2: seq<Event>)
    ensures Subsequence(es1, UnionFrom(es1, es2))
    ensures forall o :: o in UnionFrom(es1, es2) ==> o in es1 || exists e :: e in es2 && o.Within(e)
    decreases |es1| + |es2|, if es1 != [] && es2 != [] && es2[0].timestamp < es1[0].timestamp then 1 else 0
  {
    if es1 == [] || es2 == [] {
      PrefixIsSubsequence(es1, es2);
      assert forall e :: e in es2 ==> e.Within(e);
    } else {
      var (e, rest1, rest2) := Step(es1, es2);
      UnionKeepsFirst(rest1, rest2);
      var out' := UnionFrom(rest1, rest2);
      assert UnionFrom(es1, es2)[1..] == out';
      forall o | o in [e] + out' ensures o in es1 || exists x :: x in es2 && o.Within(x) {
        if o in out' && o !in rest1 {
          var x :| x in rest2 && o.Within(x);
          assert x.Within(es2[0]) || x in es2;
          assert o.Within(es2[0]) || x in es2;
        } else if o == e && o !in es1 {
          assert o.Within(es2[0]);
        }
      }
    }
  }

  lemma {:induction false} SubsequenceMembers(a: seq<Event>, b: seq<Event>)
    requires Subsequence(a, b)
    ensures forall e :: e in a ==> e in b
    decreases |b|
  {
    if a != [] {
      assert a == [a[0]] + a[1..] && b == [b[0]] + b[1..];
      if a[0] == b[0] && Subsequence(a[1..], b[1..]) {
        SubsequenceMembers(a[1..], b[1..]);
      } else {
        SubsequenceMembers(a, b[1..]);
      }
    }
  }

  // ---- When the output is free of overlap ----

  /** Sorted, disjoint, and every event of positive length. */
  predicate Proper(es: seq<Event>) {
    es != [] ==> es[0].duration > 0 && (|es| > 1 ==> es[0].End() <= es[1].timestamp) && Proper(es[1..])
  }

  lemma {:induction false} ProperFacts(es: seq<Event>)
    ensures Proper(es) <==> NonOverlapping(es) && Positive(es)
    ensures Proper(es) && es != [] ==> forall x :: x in es[1..] ==> es[0].End() <= x.timestamp
  {
    if es != [] {
      ProperFacts(es[1..]);
      var tail := es[1..];
      assert es[0] in es;
      assert forall i :: 0 <= i < |tail| ==> tail[i] == es[i + 1] && tail[i] in es;
      if Proper(tail) && tail != [] {
        assert forall x :: x in tail ==> x == tail[0] || x in tail[1..];
        assert tail[0].duration > 0;
      }
      if NonOverlapping(es) && Positive(es) {
        assert NonOverlapping(tail) by {
          forall i, j | 0 <= i < j < |tail| ensures tail[i].End() <= tail[j].timestamp {
            assert es[i + 1].End() <= es[j + 1].timestamp;
          }
        }
      }
      if Proper(es) {
        forall i, j | 0 <= i < j < |es| ensures es[i].End() <= es[j].timestamp {
          assert es[j] == tail[j - 1];
          if i > 0 { assert es[i] == tail[i - 1]; } else { assert es[j] in tail; }
        }
      }
    }
  }

  /** `e` overlaps two different events of `es`. */
  ghost predicate Crowded(e: Event, es: seq<Event>) {
    exists x, y :: x in es && y in es && x != y && Overlap(e, x) && Overlap(e, y)
  }

  ghost predicate NoneCrowded(es1: seq<Event>, es2: seq<Event>) {
    forall e :: e in es1 ==> !Crowded(e, es2)
  }

  /** Replacing the head by a rest that overlaps `e` just the same changes nothing for `e`. */
  lemma CrowdedSwap(e: Event, b: Event, b': Event, tail: seq<Event>)
    requires Overlap(e, b) == Overlap(e, b') && b !in tail && b' !in tail
    ensures Crowded(e, [b] + tail) <==> Crowded(e, [b'] + tail)
  {
    if Crowded(e, [b] + tail) {
      var x, y :| x in [b] + tail && y in [b] + tail && x != y && Overlap(e, x) && Overlap(e, y);
      var x', y' := if x == b then b' else x, if y == b then b' else y;
      assert x' in [b'] + tail && y' in [b'] + tail && x' != y';
    }
    if Crowded(e, [b'] + tail) {
      var x, y :| x in [b'] + tail && y in [b'] + tail && x != y && Overlap(e, x) && Overlap(e, y);
      var x', y' := if x == b' then b else x, if y == b' then b else y;
      assert x' in [b] + tail && y' in [b] + tail && x' != y';
    }
  }

  lemma CrowdedDrop(e: Event, b: Event, tail: seq<Event>)
    requires !Overlap(e, b)
    ensures Crowded(e, [b] + tail) <==> Crowded(e, tail)
  {
    if Crowded(e, tail) {
      var x, y :| x in tail && y in tail && x != y && Overlap(e, x) && Overlap(e, y);
      assert x in [b] + tail && y in [b] + tail;
    }
  }

  /** Neither list has anything that starts before `m`. */
  predicate NothingBefore(m: int, es1: seq<Event>, es2: seq<Event>) {
    (es1 != [] ==> m <= es1[0].timestamp) && (es2 != [] ==> m <= es2[0].timestamp)
  }

  lemma NoneCrowdedCons(e1: Event, tail1: seq<Event>, es2: seq<Event>)
    ensures NoneCrowded([e1] + tail1, es2) <==> !Crowded(e1, es2) && NoneCrowded(tail1, es2)
  {
    assert e1 in [e1] + tail1;
  }

  /** The head of the second list is replaced by its rest `b'` (or dropped); the
      events of `es1` overlap that just as they overlapped the head. */
  lemma NoneCrowdedCut(es1: seq<Event>, b: Event, rest: Option<Event>, tail2: seq<Event>)
    requires b !in tail2 && (rest.Some? ==> rest.value !in tail2)
    requires forall e :: e in es1 ==> Overlap(e, b) == (rest.Some? && Overlap(e, rest.value))
    ensures NoneCrowded(es1, [b] + tail2) <==> NoneCrowded(es1, Prepend(rest, tail2))
  {
    forall e | e in es1 ensures Crowded(e, [b] + tail2) <==> Crowded(e, Prepend(rest, tail2)) {
      if rest.Some? { CrowdedSwap(e, b, rest.value, tail2); } else { CrowdedDrop(e, b, tail2); }
    }
  }

  lemma ProperHead(es: seq<Event>)
    requires Proper(es) && es != []
    ensures es[0].duration > 0 && es == [es[0]] + es[1..] && Proper(es[1..])
    ensures forall x :: x in es[1..] ==> es[0].End() <= x.timestamp && x.duration > 0
  {
    ProperFacts(es);
    assert forall x :: x in es[1..] ==> x in es;
  }

  /** Pushing `e1` first: it is crowded just when something is left that starts before its end. */
  lemma HeadCrowded(e1: Event, b: Event, tail2: seq<Event>)
    requires Proper([b] + tail2) && e1.duration > 0 && e1.timestamp <= b.timestamp
    ensures Crowded(e1, [b] + tail2) <==> tail2 != [] && tail2[0].timestamp < e1.End()
  {
    var es2 := [b] + tail2;
    ProperHead(es2);
    assert es2[1..] == tail2;
    if tail2 != [] {
      var c := tail2[0];
      ProperHead(tail2);
      hide Proper;
      assert c in tail2 && c in es2 && b in es2;
      if c.timestamp < e1.End() {
        assert b != c && Overlap(e1, b) && Overlap(e1, c);
      } else {
        forall x | x in es2 && x != b ensures !Overlap(e1, x) {
          assert x == c || x in tail2[1..];
        }
      }
    }
  }

  lemma PushFirst(es1: seq<Event>, es2: seq<Event>)
    requires es1 != [] && es2 != [] && Proper(es1) && Proper(es2) && es1[0].timestamp <= es2[0].timestamp
    ensures var (e, rest1, rest2) := Step(es1, es2);
            && Proper(rest1) && Proper(rest2) && e.duration > 0
            && (NoneCrowded(es1, es2) <==> NothingBefore(e.End(), rest1, rest2) && NoneCrowded(rest1, rest2))
  {
    hide NoneCrowded, Crowded;
    ProperHead(es1);
    ProperHead(es2);
    var e1, e2, tail1, tail2 := es1[0], es2[0], es1[1..], es2[1..];
    NoneCrowdedCons(e1, tail1, es2);
    HeadCrowded(e1, e2, tail2);
    if Overlap(e1, e2) {
      NoneCrowdedCut(tail1, e2, SplitEvent(e2, e1.End()).1, tail2);
    }
  }

  lemma PushSecond(es1: seq<Event>, es2: seq<Event>)
    requires es1 != [] && es2 != [] && Proper(es1) && Proper(es2) && es1[0].timestamp > es2[0].timestamp
    ensures var (e, rest1, rest2) := Step(es1, es2);
            && Proper(rest1) && Proper(rest2) && e.duration > 0
            && NothingBefore(e.End(), rest1, rest2)
            && (NoneCrowded(es1, es2) <==> NoneCrowded(rest1, rest2))
  {
    hide NoneCrowded, Crowded;
    ProperHead(es1);
    ProperHead(es2);
    var e1, e2, tail2 := es1[0], es2[0], es2[1..];
    assert forall x :: x in es1 ==> x == e1 || x in es1[1..];
    NoneCrowdedCut(es1, e2, SplitEvent(e2, e1.timestamp).1, tail2);
  }

  lemma StepProper(es1: seq<Event>, es2: seq<Event>)
    requires es1 != [] && es2 != [] && Proper(es1) && Proper(es2)
    ensures var (e, rest1, rest2) := Step(es1, es2);
            && Proper(rest1) && Proper(rest2) && e.duration > 0
            && (NoneCrowded(es1, es2) <==> NothingBefore(e.End(), rest1, rest2) && NoneCrowded(rest1, rest2))
  {
    hide *;
    if es1[0].timestamp <= es2[0].timestamp { PushFirst(es1, es2); } else { PushSecond(es1, es2); }
  }

  lemma {:induction false} UnionStart(es1: seq<Event>, es2: seq<Event>, m: int)
    ensures var out := UnionFrom(es1, es2);
            out != [] ==> (m <= out[0].timestamp <==> NothingBefore(m, es1, es2))
    ensures UnionFrom(es1, es2) == [] ==> es1 == [] && es2 == []
    decreases |es1| + |es2|
  {}

  /** Of two lists that are each sorted, disjoint and without empty events, the
      union is so too if and only if no event of the first overlaps two of the second. */
  lemma {:induction false} UnionProperIff(es1: seq<Event>, es2: seq<Event>)
    requires Proper(es1) && Proper(es2)
    ensures Proper(UnionFrom(es1, es2)) <==> NoneCrowded(es1, es2)
    decreases |es1| + |es2|, if es1 != [] && es2 != [] && es2[0].timestamp < es1[0].timestamp then 1 else 0
  {
    if es1 == [] || es2 == [] {
      assert es1 + es2 == if es1 == [] then es2 else es1;
    } else {
      hide NoneCrowded, Overlap;
      var (e, rest1, rest2) := Step(es1, es2);
      StepProper(es1, es2);
      UnionProperIff(rest1, rest2);
      UnionStart(rest1, rest2, e.End());
      var out' := UnionFrom(rest1, rest2);
      assert UnionFrom(es1, es2) == [e] + out' && ([e] + out')[1..] == out';
    }
  }

  lemma {:induction false} UnionPositive(es1: seq<Event>, es2: seq<Event>)
    requires Proper(es1) && Proper(es2)
    ensures Positive(UnionFrom(es1, es2))
    decreases |es1| + |es2|, if es1 != [] && es2 != [] && es2[0].timestamp < es1[0].timestamp then 1 else 0
  {
    if es1 == [] || es2 == [] {
      ProperFacts(es1);
      ProperFacts(es2);
    } else {
      StepProper(es1, es2);
      UnionPositive(Step(es1, es2).1, Step(es1, es2).2);
    }
  }

  /** The same, said of neighbours that do not overlap. */
  lemma UnionDisjointIff(es1: seq<Event>, es2: seq<Event>)
    requires NonOverlapping(es1) && Positive(es1) && NonOverlapping(es2) && Positive(es2)
    ensures NonOverlapping(UnionFrom(es1, es2)) <==> NoneCrowded(es1, es2)
  {
    hide NoneCrowded, UnionFrom;
    ProperFacts(es1);
    ProperFacts(es2);
    UnionProperIff(es1, es2);
    UnionPositive(es1, es2);
    ProperFacts(UnionFrom(es1, es2));
  }

  /** Then the first list has precedence: its data shows wherever it covers an
      instant, the second list's data everywhere else. */
  lemma UnionPrecedence(es1: seq<Event>, es2: seq<Event>, t: int, d: Data)
    requires NonOverlapping(es1) && Positive(es1) && NonOverlapping(es2) && Positive(es2) && NoneCrowded(es1, es2)
    ensures var out := UnionFrom(es1, es2);
            && NonOverlapping(out) && Positive(out)
            && (Shows(out, t, d) <==> if Covered(es1, t) then Shows(es1, t, d) else Shows(es2, t, d))
  {
    ProperFacts(es1);
    ProperFacts(es2);
    var out := UnionFrom(es1, es2);
    hide UnionFrom, NoneCrowded;
    UnionProperIff(es1, es2);
    ProperFacts(out);
    UnionKeepsFirst(es1, es2);
    SubsequenceMembers(es1, out);
    UnionCoverage(es1, es2, t, d);
    if Covered(es1, t) {
      var e :| e in es1 && e.Covers(t);
      OneCovers(out, t, e);
      OneCovers(es1, t, e);
    } else if Shows(es2, t, d) {
      var e :| e in es2 && e.Marks(t, d);
      assert Covered(es2, t);
      var o :| o in out && o.Covers(t);
      var x :| x in es2 && o.Within(x);
      OneCovers(es2, t, e);
      assert x == e && o.Marks(t, d);
    }
  }

  lemma OneCovers(es: seq<Event>, t: int, e: Event)
    requires NonOverlapping(es) && e in es && e.Covers(t)
    ensures forall x :: x in es && x.Covers(t) ==> x == e
  {}
}
