/** The pull-merge-push round between two devices, over notes and todos. */
module SyncRound {
  import opened Events
  import opened Conflict
  import opened Merge
  import Text

  datatype Kind = InboxKind | TodoKind

  datatype TrashEntry =
    TrashEntry(kind: Kind, key: string, row: Row, winner: Rev, reason: Reason, source: Option<string>)

  /** One table in a snapshot: left out, a text that cannot be imported, or rows. */
  datatype Part = Absent | Unreadable | Whole(rows: seq<Row>)

  /** What a device sends: its whole tables, as far as it shares them. */
  datatype Snapshot = Snapshot(source: Option<string>, inbox: Part, todo: Part)

  datatype ApplyResult = ApplyResult(applied: nat, created: nat, updated: nat, deleted: nat, ignored: nat,
                                     conflicts: nat, archived: nat, errors: seq<Kind>, records: seq<(string, Action)>)

  const NOTHING_APPLIED := ApplyResult(0, 0, 0, 0, 0, 0, 0, [], [])

  function Accumulated(result: ApplyResult, out: Outcome): ApplyResult {
    ApplyResult(result.applied + out.Applied(), result.created + out.created, result.updated + out.updated,
                result.deleted + out.deleted, result.ignored + out.ignoredStale + out.ignoredDup,
                result.conflicts + |out.archived|, result.archived + |out.archived|, result.errors,
                result.records + out.records)
  }

  function Discarded(kind: Kind, a: Archived, source: Option<string>): TrashEntry {
    TrashEntry(kind, a.key, a.row, a.winner, a.reason, source)
  }

  function AllDiscarded(kind: Kind, archived: seq<Archived>, source: Option<string>): (r: seq<TrashEntry>)
    ensures |r| == |archived|
    ensures forall a :: a in archived ==> Discarded(kind, a, source) in r
  {
    if archived == [] then [] else [Discarded(kind, archived[0], source)] + AllDiscarded(kind, archived[1..], source)
  }

  /** What applying one table of a snapshot does: rows, accumulated result, trash. */
  function Applied(kind: Kind, rows: Rows, part: Part, result: ApplyResult, trash: seq<TrashEntry>,
      source: Option<string>)
    : (Rows, ApplyResult, seq<TrashEntry>)
  {
    match part
    case Absent => (rows, result, trash)
    case Unreadable => (rows, result.(errors := result.errors + [kind]), trash)
    case Whole(batch) =>
      var (rows', out) := Imported(rows, batch);
      (rows', Accumulated(result, out), trash + AllDiscarded(kind, out.archived, source))
  }

  function Shared(share: bool, rows: seq<Row>): Part { if share then Whole(rows) else Absent }

  class Device {
    const id: string
    const notes: Table
    const todos: Table
    const shareInbox: bool
    const shareTodo: bool
    var trash: seq<TrashEntry>

    constructor (id: string, notes: Table, todos: Table, shareInbox: bool, shareTodo: bool)
      ensures this.id == id && this.notes == notes && this.todos == todos && trash == []
      ensures this.shareInbox == shareInbox && this.shareTodo == shareTodo
    {
      this.id, this.notes, this.todos, trash := id, notes, todos, [];
      this.shareInbox, this.shareTodo := shareInbox, shareTodo;
    }

    method PersistOutcome(result: ApplyResult, out: Outcome, kind: Kind, source: Option<string>)
      returns (r: ApplyResult)
      modifies this
      ensures r == Accumulated(result, out)
      ensures trash == old(trash) + AllDiscarded(kind, out.archived, source)
    {
      hide Discarded;
      r := Accumulated(result, out);
      assert out.archived[0..] == out.archived;
      for i := 0 to |out.archived|
        invariant trash + AllDiscarded(kind, out.archived[i..], source)
                  == old(trash) + AllDiscarded(kind, out.archived, source)
      {
        assert out.archived[i..][0] == out.archived[i] && out.archived[i..][1..] == out.archived[i + 1..];
        trash := trash + [Discarded(kind, out.archived[i], source)];
      }
      assert out.archived[|out.archived|..] == [];
    }

    method ApplyPart(table: Table, kind: Kind, part: Part, result: ApplyResult, source: Option<string>)
      returns (r: ApplyResult)
      modifies this, table
      ensures (table.State(), r, trash) == Applied(kind, old(table.State()), part, result, old(trash), source)
    {
      hide Imported, Accumulated, AllDiscarded;
      r := result;
      match part {
        case Absent =>
        case Unreadable => r := r.(errors := r.errors + [kind]);
        case Whole(batch) =>
          var out := table.Import(batch);
          r := PersistOutcome(r, out, kind, source);
      }
    }

    method ApplySnapshot(snap: Snapshot) returns (result: ApplyResult)
      requires notes != todos
      modifies this, notes, todos
      ensures var (n, r, t) :=
                Applied(InboxKind, old(notes.State()), snap.inbox, NOTHING_APPLIED, old(trash), snap.source);
              && notes.State() == n
              && (todos.State(), result, trash) ==
                   Applied(TodoKind, old(todos.State()), snap.todo, r, t, snap.source)
    {
      hide Applied;
      result := ApplyPart(notes, InboxKind, snap.inbox, NOTHING_APPLIED, snap.source);
      result := ApplyPart(todos, TodoKind, snap.todo, result, snap.source);
    }

    method Export() returns (snap: Snapshot)
      ensures snap == Snapshot(Some(id), Shared(shareInbox, notes.rows), Shared(shareTodo, todos.rows))
    {
      snap := Snapshot(Some(id), Absent, Absent);
      if shareInbox { snap := snap.(inbox := Whole(notes.rows)); }
      if shareTodo { snap := snap.(todo := Whole(todos.rows)); }
    }
  }

  /** One table on both devices after a round: the peer's rows are merged here if
      they come, and then the result is merged there if it arrives. */
  function Exchanged(local: Rows, peer: Rows, pulled: bool, pushed: bool): (Rows, Rows) {
    var local' := if pulled then Imported(local, peer.all).0 else local;
    (local', if pushed then Imported(peer, local'.all).0 else peer)
  }

  /** A round in which both share the table and the push arrives. */
  function Round(local: Rows, peer: Rows): (Rows, Rows) { Exchanged(local, peer, true, true) }

  ghost predicate Separate(a: Device, b: Device) {
    && a != b && a.notes != a.todos && b.notes != b.todos
    && a.notes != b.notes && a.notes != b.todos && a.todos != b.notes && a.todos != b.todos
  }

  /** What an import of `batch` adds to the trash, if there is one. */
  function Trashed(kind: Kind, rows: Rows, batch: seq<Row>, imported: bool, source: string): seq<TrashEntry> {
    if imported then AllDiscarded(kind, Imported(rows, batch).1.archived, Some(source)) else []
  }

  /** sync_to: fetch the peer's snapshot, merge it, export, push. A failed fetch
      ends the round before anything changed; a failed push is swallowed. */
  method SyncTo(local: Device, peer: Device, fetchOk: bool, pushOk: bool) returns (applied: Option<ApplyResult>)
    requires Separate(local, peer)
    modifies local, peer, local.notes, local.todos, peer.notes, peer.todos
    ensures applied.Some? <==> fetchOk
    ensures applied.Some? ==> applied.value.errors == []
    ensures (local.notes.State(), peer.notes.State()) ==
      Exchanged(old(local.notes.State()), old(peer.notes.State()), fetchOk && peer.shareInbox,
                fetchOk && pushOk && local.shareInbox)
    ensures (local.todos.State(), peer.todos.State()) ==
      Exchanged(old(local.todos.State()), old(peer.todos.State()), fetchOk && peer.shareTodo,
                fetchOk && pushOk && local.shareTodo)
    ensures local.trash == old(local.trash)
      + Trashed(InboxKind, old(local.notes.State()), old(peer.notes.rows), fetchOk && peer.shareInbox, peer.id)
      + Trashed(TodoKind, old(local.todos.State()), old(peer.todos.rows), fetchOk && peer.shareTodo, peer.id)
    ensures peer.trash == old(peer.trash)
      + Trashed(InboxKind, old(peer.notes.State()), local.notes.rows, fetchOk && pushOk && local.shareInbox, local.id)
      + Trashed(TodoKind, old(peer.todos.State()), local.todos.rows, fetchOk && pushOk && local.shareTodo, local.id)
  {
    hide Imported, AllDiscarded;
    if !fetchOk {
      return None;
    }
    var remote := peer.Export();
    var result := local.ApplySnapshot(remote);
    var snap := local.Export();
    if pushOk {
      var _ := peer.ApplySnapshot(snap);
    }
    return Some(result);
  }

  // ---- What a round achieves, key by key ----

  /** Stored keys are never blank: missing uuids are filled in before an export. */
  ghost predicate Keyed(rows: seq<Row>) {
    forall r :: r in rows ==> !Text.Blank(r.uuid)
  }

  lemma {:induction false} ExportBringsRows(rows: seq<Row>, k: string)
    requires Keyed(rows)
    ensures Incoming(rows, k) == Lookup(rows, k)
    ensures UniqueKeys(rows) ==> UniqueBatch(rows)
  {
    if rows != [] {
      assert forall r :: r in rows[1..] ==> r in rows;
      ExportBringsRows(rows[1..], k);
      assert forall i :: 0 <= i < |rows| ==> rows[i] in rows && Key(rows[i]) == rows[i].uuid;
    }
  }

  lemma {:induction false} ImportKeepsKeyed(local: map<string, Row>, rows: Rows, out: Outcome, batch: seq<Row>)
    requires Keyed(rows.all)
    ensures Keyed(ImportRest(local, rows, out, batch).0.all)
    decreases |batch|
  {
    if batch != [] {
      hide IncomingNewer;
      KeyFacts(batch[0].uuid, batch[0].id);
      var (rows', out') := ImportOne(local, rows, out, batch[0]);
      assert Keyed(rows'.all);
      ImportKeepsKeyed(local, rows', out', batch[1..]);
    }
  }

  /** Different payloads under revisions that arbitration cannot tell apart. */
  ghost predicate Deadlocked(a: Option<Version>, b: Option<Version>) {
    a.Some? && b.Some? && !a.value.Same(b.value) && a.value.rev.Tied(b.value.rev)
  }

  lemma RoundByKey(local: Rows, peer: Rows, k: string)
    requires UniqueKeys(local.all) && Keyed(local.all) && UniqueKeys(peer.all) && Keyed(peer.all)
    ensures var (local', peer') := Round(local, peer);
            var a, b := Lookup(local.all, k), Lookup(peer.all, k);
            && UniqueKeys(local'.all) && Keyed(local'.all) && UniqueKeys(peer'.all) && Keyed(peer'.all)
            && Lookup(local'.all, k) == Resolve(a, b) && Lookup(peer'.all, k) == Resolve(b, Resolve(a, b))
  {
    var local' := Imported(local, peer.all).0;
    ExportBringsRows(peer.all, k);
    ImportByKey(local, peer.all, k);
    ImportKeepsKeyed(Index(local.all), local, NOTHING_DONE, peer.all);
    ExportBringsRows(local'.all, k);
    ImportByKey(peer, local'.all, k);
    ImportKeepsKeyed(Index(peer.all), peer, NOTHING_DONE, local'.all);
  }

  /** After a round whose push arrives both devices agree on a key, unless, and
      only unless, they held different payloads under tied revisions. */
  lemma RoundAgreesIff(local: Rows, peer: Rows, k: string)
    requires UniqueKeys(local.all) && Keyed(local.all) && UniqueKeys(peer.all) && Keyed(peer.all)
    ensures var (local', peer') := Round(local, peer);
            SamePayload(Lookup(local'.all, k), Lookup(peer'.all, k)) <==>
            !Deadlocked(Lookup(local.all, k), Lookup(peer.all, k))
  {
    RoundByKey(local, peer, k);
    var a, b := Lookup(local.all, k), Lookup(peer.all, k);
    if a.Some? && b.Some? {
      NewerTrichotomy(a.value.rev, b.value.rev);
    }
  }

  lemma {:induction false} SameIsIdle(local: map<string, Row>, rows: Rows, out: Outcome, batch: seq<Row>)
    requires forall n :: n in batch ==> Key(n) in local && local[Key(n)].v.Same(n.v)
    ensures var (rows', out') := ImportRest(local, rows, out, batch);
            rows' == rows && out'.archived == out.archived && out'.Applied() == out.Applied()
    decreases |batch|
  {
    if batch != [] {
      SameIsIdle(local, rows, ImportOne(local, rows, out, batch[0]).1, batch[1..]);
    }
  }

  lemma ImportOfAgreedIsIdle(rows: Rows, batch: seq<Row>)
    requires UniqueKeys(rows.all) && UniqueKeys(batch) && Keyed(batch)
    requires forall k :: Lookup(batch, k).Some? ==> SamePayload(Lookup(rows.all, k), Lookup(batch, k))
    ensures var (rows', out) := Imported(rows, batch);
            rows' == rows && out.archived == [] && out.Applied() == 0
  {
    var local := Index(rows.all);
    forall n | n in batch ensures Key(n) in local && local[Key(n)].v.Same(n.v) {
      var i :| 0 <= i < |batch| && batch[i] == n;
      LookupAt(batch, i);
      IndexIsLookup(rows.all, n.uuid);
    }
    SameIsIdle(local, rows, NOTHING_DONE, batch);
  }

  /** A round between devices that agree applies nothing, archives nothing and
      leaves both tables as they are: repeated rounds settle after the first. */
  lemma AgreedRoundIsIdle(local: Rows, peer: Rows)
    requires UniqueKeys(local.all) && Keyed(local.all) && UniqueKeys(peer.all) && Keyed(peer.all)
    requires forall k :: SamePayload(Lookup(local.all, k), Lookup(peer.all, k))
    ensures Round(local, peer) == (local, peer)
    ensures Imported(local, peer.all).1.archived == [] && Imported(local, peer.all).1.Applied() == 0
    ensures Imported(peer, local.all).1.archived == [] && Imported(peer, local.all).1.Applied() == 0
  {
    ImportOfAgreedIsIdle(local, peer.all);
    ImportOfAgreedIsIdle(peer, local.all);
  }

  /** Without a deadlocked key, a second round changes nothing any more. */
  lemma SecondRoundIsIdle(local: Rows, peer: Rows)
    requires UniqueKeys(local.all) && Keyed(local.all) && UniqueKeys(peer.all) && Keyed(peer.all)
    requires forall k :: !Deadlocked(Lookup(local.all, k), Lookup(peer.all, k))
    ensures var (local', peer') := Round(local, peer); Round(local', peer') == (local', peer')
  {
    hide Round, Keyed, UniqueKeys, Deadlocked;
    var (local', peer') := Round(local, peer);
    forall k ensures SamePayload(Lookup(local'.all, k), Lookup(peer'.all, k)) {
      RoundAgreesIff(local, peer, k);
    }
    RoundByKey(local, peer, "");
    AgreedRoundIsIdle(local', peer');
  }
}
