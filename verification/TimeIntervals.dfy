/** Time intervals and the operations the transforms use on them. */
module TimeIntervals {
  import opened Events

  datatype TimeInterval = TimeInterval(start: int, end: int) {
    function Duration(): int { end - start }

    /** The non-empty gap between two intervals, if they are separated by one. */
    function Gap(other: TimeInterval): Option<TimeInterval> {
      if end < other.start then Some(TimeInterval(end, other.start))
      else if other.end < start then Some(TimeInterval(other.end, start))
      else None
    }

    /** The join of two intervals without a gap between them. */
    function Union(other: TimeInterval): Option<TimeInterval> {
      if Gap(other).Some? then None
      else Some(TimeInterval(Min(start, other.start), Max(end, other.end)))
    }

    function Intersection(other: TimeInterval): Option<TimeInterval> {
      var lastStart := Max(start, other.start);
      var firstEnd := Min(end, other.end);
      if lastStart < firstEnd then Some(TimeInterval(lastStart, firstEnd)) else None
    }

    predicate Intersects(other: TimeInterval) { Intersection(other).Some? }
  }

  function Interval(e: Event): TimeInterval { TimeInterval(e.timestamp, e.End()) }

  predicate Overlap(a: Event, b: Event) { Interval(a).Intersects(Interval(b)) }

  /** Two events intersect exactly when they share an instant. */
  lemma OverlapIsSharedInstant(a: Event, b: Event)
    ensures Overlap(a, b) <==> exists t :: a.Covers(t) && b.Covers(t)
  {
    if Overlap(a, b) {
      assert a.Covers(Max(a.timestamp, b.timestamp)) && b.Covers(Max(a.timestamp, b.timestamp));
    }
  }
}
