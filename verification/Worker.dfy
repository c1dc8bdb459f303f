/** The thread that owns the database. It handles requests inside one open
    transaction, commits it in batches, and holds back the answers to the
    requests that promise a commit. */
module Worker {
  import opened Events
  import opened StoreSpec
  import opened StoreRuns
  import opened Datastore

  /** A batch is committed once more than this many events are in it. */
  const MAX_UNCOMMITTED := 100

  datatype Command =
    | Work(op: Op)
    | GetBucket(name: string)
    | GetEvents(bucket: string, from: Option<int>, to: Option<int>, limit: Option<nat>, clip: bool)
    | ForceCommit
    | Close

  datatype Answer =
    | Response(response: StoreRuns.Response)
    | OneBucket(found: Result<Bucket>)
    | EventList(events: Result<seq<Event>>)
    | Empty
    | CommitFailed

  /** What became of a commit. A transaction whose commit failed is committed
      once more when it is dropped, and rolled back if that fails too. */
  datatype CommitResult = Committed | CommittedOnDrop | RolledBack

  /** One turn of the loop: the request polled, whether 15 seconds had passed
      since the last commit when it was done, and what a commit would come to
      then. `Disconnected`: no one is left to send requests. */
  datatype Turn = Request(command: Command, late: bool, commit: CommitResult) | Disconnected(commit: CommitResult)

  /** `durable` is what a crash leaves; `sys.st.db` is the open transaction. */
  datatype State = State(durable: Db, sys: Sys, commit: bool, quit: bool, uncommitted: nat)

  // ---- What the loop does ----

  function Counted(r: StoreRuns.Response): nat {
    if r.Inserted? && r.inserted.Ok? then |r.inserted.value| else if r.Beaten? && r.event.Ok? then 1 else 0
  }

  predicate Forces(r: StoreRuns.Response, op: Op) {
    (op.Create? || op.Rename? || op.Drop?) && r.Done? && r.done.Ok?
  }

  function Handled(s: State, c: Command): (State, Answer) {
    match c
    case Work(op) =>
      var (sys, r) := Step(s.sys, op);
      (s.(sys := sys, commit := s.commit || Forces(r, op), uncommitted := s.uncommitted + Counted(r)), Response(r))
    case GetBucket(name) =>
      (s, OneBucket(if name in s.sys.st.cache then Ok(s.sys.st.cache[name]) else Err(NoSuchBucket(name))))
    case GetEvents(name, from, to, limit, clip) =>
      (s, EventList(StoreSpec.GetEvents(s.sys.st, name, from, to, limit, clip)))
    case ForceCommit => (s.(commit := true), Empty)
    case Close => (s.(quit := true), Empty)
  }

  predicate Deferred(c: Command) { c.ForceCommit? || c.Close? }

  function Polled(s: State, t: Turn): State {
    match t
    case Request(c, _, _) => Handled(s, c).0
    case Disconnected(_) => s.(quit := true)
  }

  /** The batch ends with this turn. */
  predicate Ends(s: State, t: Turn) {
    var p := Polled(s, t);
    t.Disconnected? || Deferred(t.command) || p.commit || t.late || p.uncommitted > MAX_UNCOMMITTED || p.quit
  }

  /** The transaction is over; unless the worker quits, the next one begins. */
  function EndBatch(s: State, result: CommitResult): State {
    var db := if result.RolledBack? then s.durable else s.sys.st.db;
    var s' := s.(durable := db, sys := s.sys.(st := s.sys.st.(db := db)));
    if s.quit then s' else s'.(commit := false, uncommitted := 0)
  }

  function Turned(s: State, t: Turn): State {
    if Ends(s, t) then EndBatch(Polled(s, t), t.commit) else Polled(s, t)
  }

  function AnswerTo(s: State, t: Turn): Answer
    requires t.Request?
  {
    if Deferred(t.command) && !t.commit.Committed? then CommitFailed else Handled(s, t.command).1
  }

  /** The state after the turns; a worker that quit takes no more of them. */
  function After(s: State, turns: seq<Turn>): State
    decreases |turns|
  {
    if |turns| == 0 then s
    else
      var before := After(s, turns[..|turns| - 1]);
      if before.quit then before else Turned(before, turns[|turns| - 1])
  }

  function Answers(s: State, turns: seq<Turn>): seq<Answer>
    decreases |turns|
  {
    if |turns| == 0 then []
    else
      var n := |turns| - 1;
      var before := After(s, turns[..n]);
      Answers(s, turns[..n]) + if before.quit || turns[n].Disconnected? then [] else [AnswerTo(before, turns[n])]
  }

  /** A worker that starts: nothing handled, nothing remembered. */
  predicate Started(s: State) {
    s.durable == s.sys.st.db && !s.commit && !s.quit && s.uncommitted == 0
  }

  lemma BeforeAnyTurn(s: State, turns: seq<Turn>)
    ensures After(s, turns[..0]) == s && Answers(s, turns[..0]) == []
  {}

  lemma AfterOneMore(s: State, turns: seq<Turn>, i: nat)
    requires i < |turns| && !After(s, turns[..i]).quit
    ensures After(s, turns[..i + 1]) == Turned(After(s, turns[..i]), turns[i])
    ensures Answers(s, turns[..i + 1]) ==
      Answers(s, turns[..i]) + if turns[i].Request? then [AnswerTo(After(s, turns[..i]), turns[i])] else []
  {
    hide Turned, AnswerTo;
    assert turns[..i + 1][..i] == turns[..i];
  }

  // ---- The loop ----

  lemma BeatKeepsKeys(st: Store, last: LastHeartbeats, name: string, e: Event, pulsetime: int)
    requires KeysMatch(st.cache)
    ensures KeysMatch(HeartbeatStep(st, last, name, e, pulsetime).0.cache)
  {
    hide InsertEvents, Previous, HeartbeatRule.Merge, UpdateRow, HasRow;
    InsertKeepsKeys(st, name, [e]);
  }

  lemma StepKeepsKeys(s: Sys, op: Op)
    requires KeysMatch(s.st.cache)
    ensures KeysMatch(Step(s, op).0.st.cache)
  {
    hide InsertEvents, HeartbeatStep;
    match op
    case Create(name, info, events) =>
      if events.Some? && !HasName(s.st.db.buckets, name) {
        InsertKeepsKeys(StoreSpec.CreateBucket(s.st, name, info, None).0, name, events.value);
      }
    case Insert(name, es) => InsertKeepsKeys(s.st, name, es);
    case Beat(name, heartbeat, pulsetime) => BeatKeepsKeys(s.st, s.last, name, heartbeat, pulsetime);
    case Rename(from, to) =>
    case Drop(name) =>
    case DropEvents(name, ids) =>
  }

  class DatastoreWorker {
    const ds: DatastoreInstance
    var durable: Db
    var lastHeartbeat: LastHeartbeats
    var commit: bool
    var quit: bool
    var uncommittedEvents: nat

    ghost function View(): State
      reads this, ds
    {
      State(durable, Sys(ds.State(), lastHeartbeat), commit, quit, uncommittedEvents)
    }

    constructor (ds: DatastoreInstance)
      ensures this.ds == ds && View() == State(ds.db, Sys(ds.State(), map[]), false, false, 0)
    {
      this.ds, durable, lastHeartbeat := ds, ds.db, map[];
      commit, quit, uncommittedEvents := false, false, 0;
    }

    method HandleWork(op: Op) returns (r: StoreRuns.Response)
      requires KeysMatch(ds.cache)
      modifies this, ds
      ensures (View(), Response(r)) == Handled(old(View()), Work(op))
    {
      hide StoreSpec.CreateBucket, InsertEvents, HeartbeatStep, RenameBucket, DeleteBucket, DeleteEventsById, KeysMatch;
      match op
      case Create(name, info, events) =>
        var done := ds.CreateBucket(name, info, events);
        if done.Ok? { commit := true; }
        r := Done(done);
      case Insert(name, es) =>
        if es == [] { return Inserted(Ok([])); }
        var inserted := ds.InsertEvents(name, es);
        if inserted.Ok? {
          uncommittedEvents := uncommittedEvents + |inserted.value|;
          lastHeartbeat := lastHeartbeat[name := None];
        }
        r := Inserted(inserted);
      case Beat(name, heartbeat, pulsetime) =>
        var last, event := ds.Heartbeat(name, heartbeat, pulsetime, lastHeartbeat);
        lastHeartbeat := last;
        if event.Ok? { uncommittedEvents := uncommittedEvents + 1; }
        r := Beaten(event);
      case Rename(from, to) =>
        var done := ds.RenameBucket(from, to);
        if done.Ok? { commit := true; }
        r := Done(done);
      case Drop(name) =>
        var done := ds.DeleteBucket(name);
        if done.Ok? { commit := true; }
        r := Done(done);
      case DropEvents(name, ids) =>
        var done := ds.DeleteEventsById(name, ids);
        r := Done(done);
    }

    method HandleRequest(c: Command) returns (answer: Answer)
      requires KeysMatch(ds.cache)
      modifies this, ds
      ensures (View(), answer) == Handled(old(View()), c)
      ensures KeysMatch(ds.cache)
    {
      match c
      case Work(op) =>
        StepKeepsKeys(View().sys, op);
        var r := HandleWork(op);
        answer := Response(r);
      case GetBucket(name) =>
        var found := ds.GetBucket(name);
        answer := OneBucket(found);
      case GetEvents(name, from, to, limit, clip) =>
        var events := ds.GetEvents(name, from, to, limit, clip);
        answer := EventList(events);
      case ForceCommit =>
        commit := true;
        answer := Empty;
      case Close =>
        quit := true;
        answer := Empty;
    }

    /** Commits the open transaction and answers the request that waited for it. */
    method Commit(result: CommitResult, deferred: Option<Answer>) returns (answers: seq<Answer>)
      modifies this, ds`db
      ensures View() == EndBatch(old(View()), result).(commit := old(commit), uncommitted := old(uncommittedEvents))
      ensures answers == if deferred.None? then [] else [if result.Committed? then deferred.value else CommitFailed]
    {
      if result.RolledBack? { ds.db := durable; } else { durable := ds.db; }
      answers := [];
      if deferred.Some? {
        answers := [if result.Committed? then deferred.value else CommitFailed];
      }
    }

    /** Runs until the worker quits, or waits for a request that never comes. */
    method WorkLoop(turns: seq<Turn>) returns (answers: seq<Answer>)
      requires KeysMatch(ds.cache) && Started(View())
      modifies this, ds
      ensures View() == After(old(View()), turns)
      ensures answers == Answers(old(View()), turns)
    {
      hide After, Answers, Handled, KeysMatch;
      ghost var s0 := View();
      answers := [];
      var i := 0;
      BeforeAnyTurn(s0, turns);
      while true
        invariant 0 <= i <= |turns| && KeysMatch(ds.cache) && !quit
        invariant View().(commit := false, uncommitted := 0) == After(s0, turns[..i])
        invariant answers == Answers(s0, turns[..i])
        decreases |turns| - i
      {
        uncommittedEvents, commit := 0, false;
        var deferred: Option<Answer> := None;
        var result: CommitResult := Committed;
        while true
          invariant 0 <= i <= |turns| && KeysMatch(ds.cache) && !quit
          invariant View() == After(s0, turns[..i])
          invariant answers == Answers(s0, turns[..i])
          decreases |turns| - i
        {
          if i == |turns| {
            assert turns[..i] == turns;
            return;
          }
          ghost var before := View();
          var turn := turns[i];
          AfterOneMore(s0, turns, i);
          i, result := i + 1, turn.commit;
          if turn.Disconnected? {
            quit := true;
            break;
          }
          var answer := HandleRequest(turn.command);
          if Deferred(turn.command) {
            deferred := Some(answer);
            break;
          }
          answers := answers + [answer];
          if commit || turn.late || uncommittedEvents > MAX_UNCOMMITTED || quit {
            break;
          }
        }
        var acks := Commit(result, deferred);
        answers := answers + acks;
        if quit {
          QuitIsFinal(s0, turns, i);
          return;
        }
      }
    }
  }

  lemma {:induction false} QuitIsFinal(s: State, turns: seq<Turn>, i: nat)
    requires i <= |turns| && After(s, turns[..i]).quit
    ensures After(s, turns) == After(s, turns[..i])
    ensures Answers(s, turns) == Answers(s, turns[..i])
    decreases |turns|
  {
    if i == |turns| {
      assert turns[..i] == turns;
    } else {
      var n := |turns| - 1;
      assert turns[..n][..i] == turns[..i];
      QuitIsFinal(s, turns[..n], i);
    }
  }
}
