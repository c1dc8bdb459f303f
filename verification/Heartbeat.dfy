/** The heartbeat rule: when a new event extends the previous one. */
module HeartbeatRule {
  import opened Events

  /** The merged event, or None if `heartbeat` starts a new one. */
  function Merge(last: Event, heartbeat: Event, pulsetime: int): Option<Event> {
    if heartbeat.data != last.data then None
    else if last.timestamp > heartbeat.timestamp then None
    else if heartbeat.timestamp > last.End() + pulsetime then None
    else
      var start := Min(heartbeat.timestamp, last.timestamp);
      var end := Max(last.End(), heartbeat.End());
      if end - start < 0 then None else Some(Event(None, start, end - start, last.data))
  }

  /** A merge keeps the start and the data of the previous event and ends where
      one of the two ends, not before either. */
  lemma MergeFacts(last: Event, heartbeat: Event, pulsetime: int)
    requires Merge(last, heartbeat, pulsetime).Some?
    ensures var m := Merge(last, heartbeat, pulsetime).value;
            && m.timestamp == last.timestamp && m.data == last.data == heartbeat.data && m.duration >= 0
            && m.End() >= last.End() && m.End() >= heartbeat.End()
            && (m.End() == last.End() || m.End() == heartbeat.End())
  {}

  /** Durations that are not negative: two events merge exactly if they carry the
      same data and the second starts inside the first or at most a pulsetime
      behind it; the merged event covers both, the time between, and no more. */
  lemma MergeCovers(last: Event, heartbeat: Event, pulsetime: int, t: int)
    requires last.duration >= 0 && heartbeat.duration >= 0
    ensures var merged := Merge(last, heartbeat, pulsetime);
            && (merged.Some? <==>
                  && last.data == heartbeat.data && last.timestamp <= heartbeat.timestamp
                  && heartbeat.timestamp - last.End() <= pulsetime)
            && (merged.Some? ==>
                  (merged.value.Covers(t) <==>
                   last.Covers(t) || heartbeat.Covers(t) || last.End() <= t < heartbeat.timestamp))
  {}
}
