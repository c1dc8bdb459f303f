/** Runs from the empty store in which a remembered heartbeat goes wrong. */
module HeartbeatExamples {
  import opened Events
  import opened StoreSpec
  import opened BucketCache
  import opened StoreRuns
  import opened HeartbeatCache
  import HeartbeatRule

  // ---- A store with one event ----

  const INFO := BucketInfo("", "", "", 0, EMPTY_DATA)

  const EMPTY := Sys(Store(Db([], [], 1, 1), map[]), map[])

  function Upto(end: int): Event { Event(Some(1), 0, end, EMPTY_DATA) }

  /** A store with one bucket and one event in it, from 0 to `end`. */
  function OneEvent(name: string, end: int, cachedEnd: int, last: LastHeartbeats): Sys {
    Sys(Store(Db([BucketRow(1, name, INFO)], [EventRow(1, 1, 0, end, EMPTY_DATA)], 2, 2),
              map[name := Bucket(1, name, INFO, Some(0), Some(cachedEnd))]),
        last)
  }

  lemma OneEventRenamed(from: string, to: string, end: int, cachedEnd: int, last: LastHeartbeats)
    requires from != to
    ensures Step(OneEvent(from, end, cachedEnd, last), Rename(from, to)).0 == OneEvent(to, end, cachedEnd, last)
  {
    var st := OneEvent(from, end, cachedEnd, last).st;
    assert BucketRow(1, from, INFO) in st.db.buckets && HasName(st.db.buckets, from);
    assert Renamed(st.db.buckets, from, to) == [BucketRow(1, to, INFO)];
  }

  lemma OneEventReread(name: string, end: int, cachedEnd: int, last: LastHeartbeats)
    requires 0 <= end <= I64_MAX
    ensures Reread(OneEvent(name, end, cachedEnd, last).st, name) == Some(Upto(end))
  {
    var st := OneEvent(name, end, cachedEnd, last).st;
    var row := EventRow(1, 1, 0, end, EMPTY_DATA);
    assert st.db.events[1..] == [] && InBucket(st.db.events, 1) == [row];
    hide Reread;
    RereadIsLatest(st, name);
  }

  lemma OneEventReplaced(name: string, end: int, cachedEnd: int, last: LastHeartbeats, m: Event)
    requires m.timestamp == 0 && m.data == EMPTY_DATA
    ensures ReplaceLastEvent(OneEvent(name, end, cachedEnd, last).st, name, 1, m)
         == (OneEvent(name, m.duration, Max(cachedEnd, m.duration), last).st, Ok(()))
  {
    var st := OneEvent(name, end, cachedEnd, last).st;
    assert EventRow(1, 1, 0, end, EMPTY_DATA) in st.db.events && HasRow(st.db.events, 1, 1);
    assert UpdateRow(st.db.events, 1, 1, m) == [EventRow(1, 1, 0, m.duration, EMPTY_DATA)];
    var bucket := Bucket(1, name, INFO, Some(0), Some(Max(cachedEnd, m.duration)));
    assert Extend(st.cache[name], m) == bucket && st.cache[name := bucket] == map[name := bucket];
  }

  /** A heartbeat at `t` is merged into what is remembered, not into what is stored. */
  lemma OneEventBeaten(name: string, end: int, cachedEnd: int, last: LastHeartbeats, known: int, t: int)
    requires Previous(OneEvent(name, end, cachedEnd, last).st, last, name) == Some(Upto(known))
    requires 0 <= known <= t <= known + 10
    ensures Step(OneEvent(name, end, cachedEnd, last), Beat(name, Event(None, t, 0, EMPTY_DATA), 10)).0
         == OneEvent(name, t, Max(cachedEnd, t), (last - {name})[name := Some(Upto(t))])
  {
    var m := Event(None, 0, t, EMPTY_DATA);
    OneEventReplaced(name, end, cachedEnd, last, m);
    hide ReplaceLastEvent, InsertEvents, Reread, Previous;
    assert HeartbeatRule.Merge(Upto(known), Event(None, t, 0, EMPTY_DATA), 10) == Some(m);
    assert m.(id := Some(1)) == Upto(t);
  }

  lemma FirstBeat(end: int)
    ensures var s1 := Step(EMPTY, Create("a", INFO, None)).0;
            Step(s1, Beat("a", Event(None, 0, end, EMPTY_DATA), 10)).0 == OneEvent("a", end, end, map[])
  {
    var s1 := Step(EMPTY, Create("a", INFO, None)).0;
    var e := Event(None, 0, end, EMPTY_DATA);
    assert !HasName([], "a");
    assert s1.st == Store(Db([BucketRow(1, "a", INFO)], [], 2, 1), map["a" := Bucket(1, "a", INFO, None, None)]);
    assert s1.last == map[];
    assert Reread(s1.st, "a") == None;
    InsertOne(s1.st, "a", e);
    assert InsertRow(s1.st.db, 1, e).events == [EventRow(1, 1, 0, end, EMPTY_DATA)];
    hide InsertEvents, Reread;
    assert map["a" := Bucket(1, "a", INFO, None, None)]["a" := Bucket(1, "a", INFO, Some(0), Some(end))] ==
           map["a" := Bucket(1, "a", INFO, Some(0), Some(end))];
  }

  /** A bucket with two heartbeats is renamed and gets a third one. */
  function Away(): Sys {
    OneEvent("b", 10, 10, map["a" := Some(Upto(1)), "b" := Some(Upto(10))])
  }

  const AWAY_OPS := [
    Create("a", INFO, None), Beat("a", Event(None, 0, 1, EMPTY_DATA), 10), Beat("a", Event(None, 1, 0, EMPTY_DATA), 10),
    Rename("a", "b"), Beat("b", Event(None, 10, 0, EMPTY_DATA), 10)]

  lemma SecondBeat()
    ensures Step(OneEvent("a", 1, 1, map[]), Beat("a", Event(None, 1, 0, EMPTY_DATA), 10)).0
         == OneEvent("a", 1, 1, map["a" := Some(Upto(1))])
  {
    hide Reread, Step, OneEvent;
    OneEventReread("a", 1, 1, map[]);
    OneEventBeaten("a", 1, 1, map[], 1, 1);
    assert (map[] - {"a"})["a" := Some(Upto(1))] == map["a" := Some(Upto(1))];
  }

  lemma ThirdBeat()
    ensures Step(OneEvent("b", 1, 1, map["a" := Some(Upto(1))]), Beat("b", Event(None, 10, 0, EMPTY_DATA), 10)).0
         == Away()
  {
    hide Reread, Step, OneEvent;
    var last: LastHeartbeats := map["a" := Some(Upto(1))];
    OneEventReread("b", 1, 1, last);
    OneEventBeaten("b", 1, 1, last, 1, 10);
    assert (last - {"b"})["b" := Some(Upto(10))] == map["a" := Some(Upto(1)), "b" := Some(Upto(10))];
  }

  lemma AwayIsReached()
    ensures Run(EMPTY, AWAY_OPS).0 == Away()
  {
    hide Step, OneEvent, Away, Run;
    var last: LastHeartbeats := map["a" := Some(Upto(1))];
    FirstBeat(1);
    SecondBeat();
    OneEventRenamed("a", "b", 1, 1, last);
    ThirdBeat();
    RunFive(EMPTY, AWAY_OPS, Step(EMPTY, AWAY_OPS[0]).0, OneEvent("a", 1, 1, map[]),
            OneEvent("a", 1, 1, last), OneEvent("b", 1, 1, last), Away());
  }

  lemma RunFive(s: Sys, ops: seq<Op>, s1: Sys, s2: Sys, s3: Sys, s4: Sys, s5: Sys)
    requires |ops| == 5 && Step(s, ops[0]).0 == s1 && Step(s1, ops[1]).0 == s2 && Step(s2, ops[2]).0 == s3
    requires Step(s3, ops[3]).0 == s4 && Step(s4, ops[4]).0 == s5
    ensures Run(s, ops).0 == s5
  {
    hide Step;
    assert Run(s5, ops[5..]).0 == s5;
    assert Run(s4, ops[4..]).0 == s5 by { assert ops[4..][1..] == ops[5..]; }
    assert Run(s3, ops[3..]).0 == s5 by { assert ops[3..][1..] == ops[4..]; }
    assert Run(s2, ops[2..]).0 == s5 by { assert ops[2..][1..] == ops[3..]; }
    assert Run(s1, ops[1..]).0 == s5 by { assert ops[1..][1..] == ops[2..]; }
  }

  lemma OneEventAgrees(name: string, end: int, last: LastHeartbeats)
    requires 0 <= end <= I64_MAX
    ensures Agrees(OneEvent(name, end, end, last).st) && RowsInEra(OneEvent(name, end, end, last).st.db)
  {
    var row := EventRow(1, 1, 0, end, EMPTY_DATA);
    assert row in [row];
  }

  lemma AwayIsExact()
    ensures Exact(Away()) && Coherent(Away())
  {
    hide Reread, Agrees, RowsInEra;
    OneEventAgrees("b", 10, Away().last);
    OneEventReread("b", 10, 10, Away().last);
    var row := EventRow(1, 1, 0, 10, EMPTY_DATA);
    assert Away().st.db.events == [row] && row in [row];
  }

  /** Renames need the condition too. A bucket `a` that has heartbeats is renamed
      to `b` and grows; every cache is still right. Then it is renamed back, and the
      next heartbeat, merged into what is remembered under `a`, cuts the stored
      event from 10 to 2 and leaves the cached end behind. */
  lemma RenameBackCutsEvent()
    ensures var s := Run(EMPTY, AWAY_OPS).0;
            var s' := Step(Step(s, Rename("b", "a")).0, Beat("a", Event(None, 2, 0, EMPTY_DATA), 10)).0;
            && Exact(s) && Coherent(s)
            && s.st.db.events == [EventRow(1, 1, 0, 10, EMPTY_DATA)]
            && s'.st.db.events == [EventRow(1, 1, 0, 2, EMPTY_DATA)] && !Agrees(s'.st)
  {
    AwayIsReached();
    AwayIsExact();
    var last := Away().last;
    OneEventRenamed("b", "a", 10, 10, last);
    OneEventBeaten("a", 10, 10, last, 1, 2);
    var s' := OneEvent("a", 2, 10, (last - {"a"})["a" := Some(Upto(2))]);
    hide Exact, Coherent, Step, Run, Previous;
    assert !Agrees(s'.st) by {
      assert s'.st.cache["a"].end == Some(10) && s'.st.db.events == [EventRow(1, 1, 0, 2, EMPTY_DATA)];
    }
  }

  // ---- A deleted event ----

  function Emptied(): Sys {
    Sys(Store(Db([BucketRow(1, "a", INFO)], [], 2, 2), map["a" := Bucket(1, "a", INFO, Some(0), Some(1))]),
        map["a" := Some(Upto(1))])
  }

  const EMPTIED_OPS := [
    Create("a", INFO, None), Beat("a", Event(None, 0, 1, EMPTY_DATA), 10), Beat("a", Event(None, 1, 0, EMPTY_DATA), 10),
    DropEvents("a", [1])]

  lemma EventDeleted()
    ensures Step(OneEvent("a", 1, 1, map["a" := Some(Upto(1))]), DropEvents("a", [1])).0 == Emptied()
  {
    var rows := [EventRow(1, 1, 0, 1, EMPTY_DATA)];
    assert rows[1..] == [] && DeleteRow(rows, 1, 1) == [];
    assert [1][1..] == [] && DeleteRows(rows, 1, [1]) == [];
  }

  lemma EmptiedIsReached()
    ensures Run(EMPTY, EMPTIED_OPS).0 == Emptied()
  {
    hide Step, OneEvent, Emptied;
    var last: LastHeartbeats := map["a" := Some(Upto(1))];
    FirstBeat(1);
    SecondBeat();
    EventDeleted();
    var ops := EMPTIED_OPS;
    assert ops[3..][1..] == [] && ops[2..][1..] == ops[3..] && ops[1..][1..] == ops[2..];
    assert Run(OneEvent("a", 1, 1, last), ops[3..]).0 == Emptied();
    assert Run(OneEvent("a", 1, 1, map[]), ops[2..]).0 == Emptied();
    assert Run(Step(EMPTY, ops[0]).0, ops[1..]).0 == Emptied();
  }

  /** Event deletions need the condition: a bucket `a` with one event, which is also
      remembered, loses it. The next heartbeat is merged into the remembered event,
      finds no row to rewrite and is refused; re-reading would have stored it. */
  lemma DeletedEventRefusesBeat()
    ensures var s, beat := Run(EMPTY, EMPTIED_OPS).0, Beat("a", Event(None, 2, 0, EMPTY_DATA), 10);
            && Step(s, beat).1 == Beaten(Err(InternalError)) && Step(s, beat).0.st == s.st
            && UncachedStep(s.st, beat).1 == Beaten(Ok(Event(Some(2), 2, 0, EMPTY_DATA)))
  {
    EmptiedIsReached();
    var st, heartbeat := Emptied().st, Event(None, 2, 0, EMPTY_DATA);
    assert Reread(st, "a") == None;
    assert !HasRow(st.db.events, 1, 1);
    var m := Event(None, 0, 2, EMPTY_DATA);
    assert HeartbeatRule.Merge(Upto(1), heartbeat, 10) == Some(m);
    assert ReplaceLastEvent(st, "a", 1, m) == (st, Err(InternalError));
    InsertOne(st, "a", heartbeat);
    hide Run, Reread, InsertEvents, ReplaceLastEvent, HeartbeatRule.Merge;
    assert Previous(st, Emptied().last, "a") == Some(Upto(1)) && Previous(st, map[], "a") == None;
  }
}
