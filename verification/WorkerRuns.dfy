/** What a run of the worker leaves on disk, and what its answers promise. */
module WorkerRuns {
  import opened Events
  import opened StoreSpec
  import opened StoreRuns
  import opened BucketCache
  import opened Worker

  type Batch = b: seq<Turn> | |b| > 0 witness [Disconnected(Committed)]

  // ---- The reference: requests one after the other, no batching ----

  /** The requests, applied without any transaction. */
  function Effect(sys: Sys, turns: seq<Turn>): Sys
    decreases |turns|
  {
    if |turns| == 0 then sys
    else
      var t, before := turns[|turns| - 1], Effect(sys, turns[..|turns| - 1]);
      if t.Request? && t.command.Work? then Step(before, t.command.op).0 else before
  }

  predicate Kept(batch: Batch) { !batch[|batch| - 1].commit.RolledBack? }

  /** Whole batches, one after the other: the tables of one that was rolled back
      return to what they were, the caches kept in memory do not. */
  function Settled(sys: Sys, batches: seq<Batch>): Sys
    decreases |batches|
  {
    if |batches| == 0 then sys
    else
      var batch, before := batches[|batches| - 1], Settled(sys, batches[..|batches| - 1]);
      var after := Effect(before, batch);
      if Kept(batch) then after else after.(st := after.st.(db := before.st.db))
  }

  /** How a run falls into batches: those over, and the turns of the open one. */
  function Split(s: State, turns: seq<Turn>): (seq<Batch>, seq<Turn>)
    decreases |turns|
  {
    if |turns| == 0 then ([], [])
    else
      var n := |turns| - 1;
      var (batches, open) := Split(s, turns[..n]);
      var before := After(s, turns[..n]);
      if before.quit then (batches, open)
      else if Ends(before, turns[n]) then (batches + [open + [turns[n]]], [])
      else (batches, open + [turns[n]])
  }

  function Concat(batches: seq<Batch>): seq<Turn>
    decreases |batches|
  {
    if |batches| == 0 then [] else Concat(batches[..|batches| - 1]) + batches[|batches| - 1]
  }

  // ---- Durable state ----

  lemma EffectOfOneMore(sys: Sys, turns: seq<Turn>, t: Turn)
    ensures Effect(sys, turns + [t]) ==
      if t.Request? && t.command.Work? then Step(Effect(sys, turns), t.command.op).0 else Effect(sys, turns)
  {
    assert (turns + [t])[..|turns|] == turns;
  }

  lemma SettledOneMore(sys: Sys, batches: seq<Batch>, batch: Batch)
    ensures Settled(sys, batches + [batch]) ==
      var after := Effect(Settled(sys, batches), batch);
      if Kept(batch) then after else after.(st := after.st.(db := Settled(sys, batches).st.db))
  {
    assert (batches + [batch])[..|batches|] == batches;
  }

  lemma PolledFacts(s: State, t: Turn)
    ensures Polled(s, t).durable == s.durable
    ensures Polled(s, t).sys == if t.Request? && t.command.Work? then Step(s.sys, t.command.op).0 else s.sys
  {
    hide Step;
  }

  /** At every moment of every run, whatever commits failed: what a crash would
      leave is the effect of whole batches in order, and the open transaction is
      that with the open batch on top. */
  lemma {:induction false} DurableIsWholeBatches(s: State, turns: seq<Turn>)
    requires Started(s)
    ensures var (batches, open) := Split(s, turns);
            && After(s, turns).durable == Settled(s.sys, batches).st.db
            && After(s, turns).sys == Effect(Settled(s.sys, batches), open)
    decreases |turns|
  {
    hide Step, Polled, Ends;
    if |turns| > 0 {
      var n := |turns| - 1;
      var t := turns[n];
      DurableIsWholeBatches(s, turns[..n]);
      var (batches, open) := Split(s, turns[..n]);
      var before := After(s, turns[..n]);
      PolledFacts(before, t);
      EffectOfOneMore(Settled(s.sys, batches), open, t);
      if !before.quit && Ends(before, t) { SettledOneMore(s.sys, batches, open + [t]); }
    }
  }

  /** Every turn the worker took is in exactly one batch, in order. */
  lemma {:induction false} SplitLosesNothing(s: State, turns: seq<Turn>)
    requires Started(s)
    ensures var (batches, open) := Split(s, turns); Concat(batches) + open <= turns
    ensures !After(s, turns).quit ==> Concat(Split(s, turns).0) + Split(s, turns).1 == turns
    ensures After(s, turns).quit ==> Split(s, turns).1 == []
    decreases |turns|
  {
    hide Polled, Handled;
    if |turns| > 0 {
      var n := |turns| - 1;
      SplitLosesNothing(s, turns[..n]);
      assert turns == turns[..n] + [turns[n]];
      var (batches, open) := Split(s, turns[..n]);
      if !After(s, turns[..n]).quit {
        assert (batches + [open + [turns[n]]])[..|batches|] == batches;
      }
    }
  }

  lemma {:induction false} EffectConcat(sys: Sys, a: seq<Turn>, b: seq<Turn>)
    ensures Effect(sys, a + b) == Effect(Effect(sys, a), b)
    decreases |b|
  {
    hide Step;
    if |b| == 0 {
      assert a + b == a;
    } else {
      assert (a + b)[..|a + b| - 1] == a + b[..|b| - 1];
      EffectConcat(sys, a, b[..|b| - 1]);
    }
  }

  /** If no batch was rolled back, batching cannot be told from none: what is
      durable is the effect of the requests up to some point, in order. */
  lemma {:induction false} SettledWithoutRollback(sys: Sys, batches: seq<Batch>)
    requires forall i :: 0 <= i < |batches| ==> Kept(batches[i])
    ensures Settled(sys, batches) == Effect(sys, Concat(batches))
    decreases |batches|
  {
    hide Step;
    if |batches| > 0 {
      var n := |batches| - 1;
      SettledWithoutRollback(sys, batches[..n]);
      EffectConcat(sys, Concat(batches[..n]), batches[n]);
    }
  }

  /** Later turns add batches; they change none that is over. */
  lemma {:induction false} BatchesOnlyGrow(s: State, turns: seq<Turn>, more: seq<Turn>)
    ensures Split(s, turns).0 <= Split(s, turns + more).0
    ensures Answers(s, turns) <= Answers(s, turns + more)
    decreases |more|
  {
    hide Polled, Ends, Handled, After;
    if |more| == 0 {
      assert turns + more == turns;
    } else {
      assert (turns + more)[..|turns + more| - 1] == turns + more[..|more| - 1];
      BatchesOnlyGrow(s, turns, more[..|more| - 1]);
    }
  }

  // ---- Answers ----

  lemma OneMore(s: State, turns: seq<Turn>, t: Turn)
    requires !After(s, turns).quit
    ensures After(s, turns + [t]) == Turned(After(s, turns), t)
    ensures Answers(s, turns + [t]) ==
      Answers(s, turns) + if t.Request? then [AnswerTo(After(s, turns), t)] else []
  {
    hide Turned, AnswerTo, After, Answers;
    assert (turns + [t])[..|turns|] == turns && (turns + [t])[..|turns| + 1] == turns + [t];
    AfterOneMore(s, turns + [t], |turns|);
  }

  /** ForceCommit and Close. They are answered only once their transaction is
      over: with success exactly if its commit succeeded, and then everything
      requested so far in this batch is durable. A failure means that the batch
      is durable as a whole or not at all. */
  lemma DeferredAnswers(s: State, turns: seq<Turn>, c: Command, late: bool, result: CommitResult)
    requires Started(s) && !After(s, turns).quit && Deferred(c)
    ensures var before := After(s, turns);
            var t := Request(c, late, result);
            var after := After(s, turns + [t]);
            && Answers(s, turns + [t]) == Answers(s, turns) + [if result.Committed? then Empty else CommitFailed]
            && after.sys.st.db == after.durable
            && (result.Committed? ==> after.durable == before.sys.st.db)
            && (!result.Committed? ==> after.durable == before.sys.st.db || after.durable == before.durable)
            && (after.quit <==> c.Close?)
            && Split(s, turns + [t]) == (Split(s, turns).0 + [Split(s, turns).1 + [t]], [])
  {
    var t := Request(c, late, result);
    OneMore(s, turns, t);
    assert (turns + [t])[..|turns|] == turns;
    hide After, Answers;
  }

  /** Every other request is answered at once, by what it did to the open
      transaction; what its batch's commit comes to does not change the answer. */
  lemma OtherAnswersDoNotWait(s: State, turns: seq<Turn>, c: Command, late: bool, result: CommitResult,
      result': CommitResult)
    requires !After(s, turns).quit && !Deferred(c)
    ensures var answers := Answers(s, turns + [Request(c, late, result)]);
            && answers == Answers(s, turns) + [Handled(After(s, turns), c).1]
            && answers == Answers(s, turns + [Request(c, late, result')])
  {
    OneMore(s, turns, Request(c, late, result));
    OneMore(s, turns, Request(c, late, result'));
    hide Handled, After, Answers;
  }

  // ---- What may still be open when a request is polled ----

  /** The events the open batch has counted so far. */
  function CountedIn(sys: Sys, turns: seq<Turn>): nat
    decreases |turns|
  {
    if |turns| == 0 then 0
    else
      var n := |turns| - 1;
      CountedIn(sys, turns[..n]) +
      if turns[n].Request? && turns[n].command.Work?
      then Counted(Step(Effect(sys, turns[..n]), turns[n].command.op).1) else 0
  }

  /** Nothing in the open batch asked for a commit, came late, or created,
      renamed or deleted a bucket. */
  ghost predicate Quiet(sys: Sys, open: seq<Turn>) {
    forall i :: 0 <= i < |open| ==> QuietAt(sys, open, i)
  }

  ghost predicate QuietAt(sys: Sys, open: seq<Turn>, i: nat)
    requires i < |open|
  {
    var t := open[i];
    && t.Request? && !t.late && !Deferred(t.command)
    && (t.command.Work? ==> !Forces(Step(Effect(sys, open[..i]), t.command.op).1, t.command.op))
  }

  lemma QuietOneMore(sys: Sys, open: seq<Turn>, t: Turn)
    requires Quiet(sys, open) && QuietAt(sys, open + [t], |open|)
    ensures Quiet(sys, open + [t])
  {
    hide Effect, Forces, Step;
    forall i | 0 <= i < |open| ensures QuietAt(sys, open + [t], i) {
      assert QuietAt(sys, open, i);
      assert (open + [t])[..i] == open[..i];
    }
  }

  lemma PolledStays(s: State, t: Turn)
    requires !Ends(s, t) && !s.commit && !s.quit
    ensures !Polled(s, t).commit && !Polled(s, t).quit && Polled(s, t).uncommitted <= MAX_UNCOMMITTED
    ensures t.Request? && !t.late && !Deferred(t.command)
    ensures t.command.Work? ==>
              && !Forces(Step(s.sys, t.command.op).1, t.command.op)
              && Polled(s, t).uncommitted == s.uncommitted + Counted(Step(s.sys, t.command.op).1)
    ensures !t.command.Work? ==> Polled(s, t).uncommitted == s.uncommitted
  {
    hide Step, Forces, Counted;
  }

  /** Whenever the worker polls, at most 100 events are counted and not yet
      committed, the count is that of the open batch, and nothing in that batch
      should have been committed at once. */
  lemma {:induction false} OpenBatchIsBounded(s: State, turns: seq<Turn>)
    requires Started(s)
    ensures var s' := After(s, turns);
            var (batches, open) := Split(s, turns);
            !s'.quit ==>
              && !s'.commit
              && s'.uncommitted == CountedIn(Settled(s.sys, batches), open) <= MAX_UNCOMMITTED
              && Quiet(Settled(s.sys, batches), open)
    decreases |turns|
  {
    hide Step, Polled, Ends, Effect, Settled, Forces, Counted, QuietAt;
    if |turns| > 0 {
      var n := |turns| - 1;
      var t := turns[n];
      OpenBatchIsBounded(s, turns[..n]);
      var (batches, open) := Split(s, turns[..n]);
      var before := After(s, turns[..n]);
      if !before.quit && !Ends(before, t) {
        PolledStays(before, t);
        DurableIsWholeBatches(s, turns[..n]);
        OpenGrows(Settled(s.sys, batches), open, t);
      }
    }
  }

  lemma OpenGrows(sys: Sys, open: seq<Turn>, t: Turn)
    requires Quiet(sys, open) && t.Request? && !t.late && !Deferred(t.command)
    requires t.command.Work? ==> !Forces(Step(Effect(sys, open), t.command.op).1, t.command.op)
    ensures Quiet(sys, open + [t])
    ensures CountedIn(sys, open + [t]) ==
      CountedIn(sys, open) + if t.command.Work? then Counted(Step(Effect(sys, open), t.command.op).1) else 0
  {
    assert (open + [t])[..|open|] == open;
    hide Effect, Step, Forces, Counted, Quiet;
    QuietOneMore(sys, open, t);
  }

  // ---- Together with the caches ----

  function Ops(turns: seq<Turn>): seq<Op> {
    if turns == [] then []
    else (if turns[0].Request? && turns[0].command.Work? then [turns[0].command.op] else []) + Ops(turns[1..])
  }

  lemma {:induction false} EffectIsRun(sys: Sys, turns: seq<Turn>)
    ensures Effect(sys, turns) == Run(sys, Ops(turns)).0
    decreases |turns|
  {
    hide Step;
    if turns != [] {
      assert turns == [turns[0]] + turns[1..];
      EffectConcat(sys, [turns[0]], turns[1..]);
      EffectOfOneMore(sys, [], turns[0]);
      assert [] + [turns[0]] == [turns[0]];
      EffectIsRun(Effect(sys, [turns[0]]), turns[1..]);
      if turns[0].Request? && turns[0].command.Work? {
        assert Ops(turns)[0] == turns[0].command.op && Ops(turns)[1..] == Ops(turns[1..]);
      } else {
        assert Ops(turns) == Ops(turns[1..]);
      }
    }
  }

  // ---- What a rollback leaves in the bucket cache ----

  /** The same bucket, over an extent that holds the other one's. */
  predicate WiderEntry(a: Bucket, b: Bucket) {
    && RowOf(a) == RowOf(b)
    && (a.start.Some? ==> b.start.Some? && b.start.value <= a.start.value)
    && (a.end.Some? ==> b.end.Some? && b.end.value >= a.end.value)
  }

  ghost predicate Wider(cache: map<string, Bucket>, cache': map<string, Bucket>) {
    cache'.Keys == cache.Keys && forall name :: name in cache ==> WiderEntry(cache[name], cache'[name])
  }

  lemma {:induction false} InsertAllWidens(db: Db, bucket: Bucket, es: seq<Event>)
    ensures WiderEntry(bucket, InsertAll(db, bucket, es).1)
    decreases |es|
  {
    hide InsertRow;
    if es != [] { InsertAllWidens(InsertRow(db, bucket.bid, es[0]), Extend(bucket, es[0]), es[1..]); }
  }

  lemma InsertWidens(st: Store, name: string, es: seq<Event>)
    ensures Wider(st.cache, InsertEvents(st, name, es).0.cache)
  {
    if name in st.cache { InsertAllWidens(st.db, st.cache[name], es); }
  }

  lemma ReplaceWidens(st: Store, name: string, id: int, e: Event)
    ensures Wider(st.cache, ReplaceLastEvent(st, name, id, e).0.cache)
  {
    hide HasRow, UpdateRow;
  }

  lemma BeatWidens(s: Sys, name: string, heartbeat: Event, pulsetime: int)
    ensures Wider(s.st.cache, HeartbeatStep(s.st, s.last, name, heartbeat, pulsetime).0.cache)
  {
    hide Wider, InsertEvents, ReplaceLastEvent, Previous, HeartbeatRule.Merge;
    assert Wider(s.st.cache, s.st.cache) by { InsertWidens(s.st, name, []); SameCache(s.st.cache); }
    InsertWidens(s.st, name, [heartbeat]);
    var prev := Previous(s.st, s.last, name);
    if prev.Some? && prev.value.id.Some? && HeartbeatRule.Merge(prev.value, heartbeat, pulsetime).Some? {
      ReplaceWidens(s.st, name, prev.value.id.value, HeartbeatRule.Merge(prev.value, heartbeat, pulsetime).value);
    }
  }

  lemma SameCache(cache: map<string, Bucket>)
    ensures Wider(cache, cache)
  {}

  /** A request that does not force a commit only widens cached extents. */
  lemma OrdinaryWidens(s: Sys, op: Op)
    requires !Forces(Step(s, op).1, op)
    ensures Wider(s.st.cache, Step(s, op).0.st.cache)
  {
    hide Wider, InsertEvents, HeartbeatStep;
    SameCache(s.st.cache);
    match op
    case Insert(name, es) => InsertWidens(s.st, name, es);
    case Beat(name, heartbeat, pulsetime) => BeatWidens(s, name, heartbeat, pulsetime);
    case Create(_, _, _) =>
    case Rename(_, _) =>
    case Drop(_) =>
    case DropEvents(_, _) =>
  }

  /** One that does changes which buckets the cache knows. */
  lemma ForcingChangesNames(s: Sys, op: Op)
    requires Entries(s.st) && Forces(Step(s, op).1, op)
    ensures Step(s, op).0.st.cache.Keys != s.st.cache.Keys
  {
    hide InsertEvents;
    match op
    case Create(name, info, events) =>
      if name in s.st.cache { CachedIsNamed(s.st, name); }
      if events.Some? { InsertWidens(StoreSpec.CreateBucket(s.st, name, info, None).0, name, events.value); }
      assert name in Step(s, op).0.st.cache;
    case Rename(from, to) => assert from !in Step(s, op).0.st.cache;
    case Drop(name) => assert name !in Step(s, op).0.st.cache;
    case _ =>
  }

  lemma WiderTwice(a: map<string, Bucket>, b: map<string, Bucket>, c: map<string, Bucket>)
    requires Wider(a, b) && Wider(b, c)
    ensures Wider(a, c)
  {}

  lemma {:induction false} QuietWidens(sys: Sys, open: seq<Turn>)
    requires Quiet(sys, open)
    ensures Wider(sys.st.cache, Effect(sys, open).st.cache)
    decreases |open|
  {
    hide Wider, Step, Forces;
    if |open| == 0 {
      SameCache(sys.st.cache);
    } else {
      var n := |open| - 1;
      QuietBefore(sys, open);
      QuietWidens(sys, open[..n]);
      assert QuietAt(sys, open, n);
      if open[n].command.Work? {
        OrdinaryWidens(Effect(sys, open[..n]), open[n].command.op);
        WiderTwice(sys.st.cache, Effect(sys, open[..n]).st.cache, Effect(sys, open).st.cache);
      }
    }
  }

  lemma QuietBefore(sys: Sys, open: seq<Turn>)
    requires Quiet(sys, open) && |open| > 0
    ensures Quiet(sys, open[..|open| - 1])
  {
    hide Effect, Step, Forces;
    var init := open[..|open| - 1];
    forall i | 0 <= i < |init| ensures QuietAt(sys, init, i) {
      assert QuietAt(sys, open, i);
      assert init[..i] == open[..i];
    }
  }

  lemma WiderIsBounded(st: Store, cache: map<string, Bucket>)
    requires Bounded(st) && Wider(st.cache, cache)
    ensures Bounded(Store(st.db, cache))
  {
    hide Valid;
    forall name | name in cache
      ensures var c := cache[name]; IsBound(st.db.events, c.bid, c.start, c.end)
    {
      var c := st.cache[name];
      assert WiderEntry(c, cache[name]) && IsBound(st.db.events, c.bid, c.start, c.end);
    }
  }

  lemma OtherNamesAreNotBounded(st: Store, cache: map<string, Bucket>)
    requires Entries(st) && cache.Keys != st.cache.Keys
    ensures !Bounded(Store(st.db, cache))
  {
    if Entries(Store(st.db, cache)) {
      forall name ensures name in cache <==> name in st.cache {
        if name in cache { assert RowOf(cache[name]).name == name; }
        if name in st.cache { assert RowOf(st.cache[name]).name == name; }
      }
    }
  }

  /** The turn creates, renames or deletes a bucket. */
  predicate ForcingTurn(sys: Sys, t: Turn) {
    t.Request? && t.command.Work? && Forces(Step(sys, t.command.op).1, t.command.op)
  }

  lemma {:induction false} EffectKeepsBounded(sys: Sys, turns: seq<Turn>)
    requires Bounded(sys.st)
    ensures Bounded(Effect(sys, turns).st)
    decreases |turns|
  {
    hide Bounded, Step;
    if |turns| > 0 {
      var n := |turns| - 1;
      EffectKeepsBounded(sys, turns[..n]);
      if turns[n].Request? && turns[n].command.Work? { StepKeepsBounded(Effect(sys, turns[..n]), turns[n].command.op); }
    }
  }

  /** A batch that is rolled back, tables but not caches, leaves the cached extents
      outer bounds if and only if its last request did not create, rename or delete
      a bucket. The requests before it never do: they would have ended the batch. */
  lemma RollbackKeepsBoundsIff(sys: Sys, open: seq<Turn>, t: Turn)
    requires Bounded(sys.st) && Quiet(sys, open)
    ensures Bounded(Store(sys.st.db, Effect(sys, open + [t]).st.cache)) <==> !ForcingTurn(Effect(sys, open), t)
  {
    hide Step, Forces, Effect, Quiet, Wider;
    var before, after := Effect(sys, open), Effect(sys, open + [t]);
    EffectOfOneMore(sys, open, t);
    QuietWidens(sys, open);
    EffectKeepsBounded(sys, open);
    if ForcingTurn(before, t) {
      ForcingChangesNames(before, t.command.op);
      SameNames(sys.st.cache, before.st.cache);
      OtherNamesAreNotBounded(sys.st, after.st.cache);
    } else {
      if t.Request? && t.command.Work? {
        OrdinaryWidens(before, t.command.op);
        WiderTwice(sys.st.cache, before.st.cache, after.st.cache);
      }
      WiderIsBounded(sys.st, after.st.cache);
    }
  }

  lemma SameNames(cache: map<string, Bucket>, cache': map<string, Bucket>)
    requires Wider(cache, cache')
    ensures cache'.Keys == cache.Keys
  {}

  ghost predicate Harmless(sys: Sys, batch: Batch) {
    var n := |batch| - 1;
    Kept(batch) || !ForcingTurn(Effect(sys, batch[..n]), batch[n])
  }

  /** No batch that was rolled back ended in such a request. */
  ghost predicate AllHarmless(sys: Sys, batches: seq<Batch>) {
    forall i :: 0 <= i < |batches| ==> Harmless(Settled(sys, batches[..i]), batches[i])
  }

  lemma AllHarmlessOneMore(sys: Sys, batches: seq<Batch>, batch: Batch)
    ensures AllHarmless(sys, batches + [batch]) <==> AllHarmless(sys, batches) && Harmless(Settled(sys, batches), batch)
  {
    hide Harmless, Settled;
    var all := batches + [batch];
    assert all[..|batches|] == batches;
    assert forall i :: 0 <= i < |batches| ==> all[..i] == batches[..i] && all[i] == batches[i];
    if AllHarmless(sys, all) {
      assert Harmless(Settled(sys, all[..|batches|]), all[|batches|]);
      forall i | 0 <= i < |batches| ensures Harmless(Settled(sys, batches[..i]), batches[i]) {
        assert Harmless(Settled(sys, all[..i]), all[i]);
      }
    }
  }

  /** The end of a batch over bounded tables. */
  lemma SettledStaysBounded(sys: Sys, open: seq<Turn>, t: Turn)
    requires Bounded(sys.st) && Quiet(sys, open)
    ensures var batch: Batch := open + [t];
            var after := Effect(sys, batch);
            Bounded(if Kept(batch) then after.st else after.st.(db := sys.st.db)) <==> Harmless(sys, batch)
  {
    hide Bounded, Quiet, Effect, ForcingTurn;
    var batch: Batch := open + [t];
    assert batch[..|open|] == open;
    EffectKeepsBounded(sys, batch);
    RollbackKeepsBoundsIff(sys, open, t);
  }

  lemma {:induction false} BoundsHold(s: State, turns: seq<Turn>)
    requires Started(s) && Bounded(s.sys.st) && AllHarmless(s.sys, Split(s, turns).0)
    ensures Bounded(Settled(s.sys, Split(s, turns).0).st) && Bounded(After(s, turns).sys.st)
    decreases |turns|
  {
    hide Bounded, Harmless, AllHarmless, Polled, Ends, Step, Effect, Quiet;
    var (batches, open) := Split(s, turns);
    DurableIsWholeBatches(s, turns);
    if |turns| > 0 {
      var n := |turns| - 1;
      var (batches0, open0) := Split(s, turns[..n]);
      if batches != batches0 { AllHarmlessOneMore(s.sys, batches0, open0 + [turns[n]]); }
      BoundsHold(s, turns[..n]);
      if batches != batches0 {
        OpenBatchIsBounded(s, turns[..n]);
        SettledStaysBounded(Settled(s.sys, batches0), open0, turns[n]);
        SettledOneMore(s.sys, batches0, open0 + [turns[n]]);
      }
    }
    EffectKeepsBounded(Settled(s.sys, batches), open);
  }

  lemma {:induction false} HarmShows(s: State, turns: seq<Turn>) returns (k: nat)
    requires Started(s) && Bounded(s.sys.st) && !AllHarmless(s.sys, Split(s, turns).0)
    ensures k <= |turns| && !Bounded(After(s, turns[..k]).sys.st)
    decreases |turns|
  {
    hide Bounded, Harmless, AllHarmless, Polled, Ends, Step, Effect, Quiet;
    var (batches, open) := Split(s, turns);
    if |turns| == 0 {
      NoBatchNoHarm(s.sys);
    } else {
      var n := |turns| - 1;
      var (batches0, open0) := Split(s, turns[..n]);
      if !AllHarmless(s.sys, batches0) {
        k := HarmShows(s, turns[..n]);
        assert turns[..n][..k] == turns[..k];
      } else {
        k := |turns|;
        assert turns[..k] == turns;
        AllHarmlessOneMore(s.sys, batches0, open0 + [turns[n]]);
        BoundsHold(s, turns[..n]);
        OpenBatchIsBounded(s, turns[..n]);
        SettledStaysBounded(Settled(s.sys, batches0), open0, turns[n]);
        SettledOneMore(s.sys, batches0, open0 + [turns[n]]);
        DurableIsWholeBatches(s, turns);
        NothingOpen(Settled(s.sys, batches));
      }
    }
  }

  lemma NoBatchNoHarm(sys: Sys)
    ensures AllHarmless(sys, [])
  {}

  lemma NothingOpen(sys: Sys)
    ensures Effect(sys, []) == sys
  {}

  lemma HarmlessBefore(s: State, turns: seq<Turn>, k: nat)
    requires k <= |turns| && AllHarmless(s.sys, Split(s, turns).0)
    ensures AllHarmless(s.sys, Split(s, turns[..k]).0)
  {
    hide Harmless, Settled, Split, Answers;
    assert turns == turns[..k] + turns[k..];
    BatchesOnlyGrow(s, turns[..k], turns[k..]);
    var before, all := Split(s, turns[..k]).0, Split(s, turns).0;
    forall i | 0 <= i < |before| ensures Harmless(Settled(s.sys, before[..i]), before[i]) {
      assert before[..i] == all[..i] && before[i] == all[i];
      assert Harmless(Settled(s.sys, all[..i]), all[i]);
    }
  }

  /** Over every run, whatever commits fail: at every moment the worker's bucket
      cache bounds the events of every bucket, if and only if no batch that was
      rolled back ended with the creation, renaming or deletion of a bucket. */
  lemma CacheBoundsHoldIff(s: State, turns: seq<Turn>)
    requires Started(s) && Bounded(s.sys.st)
    ensures (forall k :: 0 <= k <= |turns| ==> Bounded(After(s, turns[..k]).sys.st)) <==>
            AllHarmless(s.sys, Split(s, turns).0)
  {
    hide Bounded, AllHarmless, After, Split;
    if AllHarmless(s.sys, Split(s, turns).0) {
      forall k | 0 <= k <= |turns| ensures Bounded(After(s, turns[..k]).sys.st) {
        HarmlessBefore(s, turns, k);
        BoundsHold(s, turns[..k]);
      }
    } else {
      var k := HarmShows(s, turns);
    }
  }

  /** A rollback takes back the tables and leaves the caches: a bucket whose
      creation was answered with success is gone from the database, and is
      still there for whoever asks the cache. */
  lemma RolledBackBucketStaysCached(s: State, name: string, info: BucketInfo)
    requires Started(s) && !HasName(s.durable.buckets, name)
    ensures var t := Request(Work(Create(name, info, None)), false, RolledBack);
            var s' := After(s, [t]);
            && Answers(s, [t]) == [Response(Done(Ok(())))]
            && s'.durable == s'.sys.st.db == s.durable
            && name in s'.sys.st.cache && !HasName(s'.durable.buckets, name)
  {
    var t := Request(Work(Create(name, info, None)), false, RolledBack);
    assert After(s, []) == s && Answers(s, []) == [];
    OneMore(s, [], t);
    assert [] + [t] == [t];
    hide After, Answers;
  }
}
