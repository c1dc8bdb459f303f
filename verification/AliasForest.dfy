/** Merges of devices, over runs: the edges from merged devices to the ones that
    replaced them form a forest whose roots are the live devices. */
module AliasForest {
  import opened Events
  import opened Devices
  import Discovery

  /** What can happen to the tables when no row is deleted. */
  datatype Op =
    | Announce(announcement: Discovery.Announcement)
    | Register(id: string, device: Device)
    | Merge(from: string, to: string)

  function Step(db: Db, op: Op): Db {
    match op
    case Announce(a) => Discovery.Recorded(db, a).0
    case Register(id, d) => Upserted(db, id, d)
    case Merge(from, to) => Merged(db, from, to).0
  }

  function Run(db: Db, ops: seq<Op>): Db
    decreases |ops|
  {
    if ops == [] then db else Run(Step(db, ops[0]), ops[1..])
  }

  // ---- The forest ----

  ghost function Live(db: Db): set<string> {
    set id | id in db.devices && db.devices[id].supersededBy.None?
  }

  /** A device has an edge exactly if it was merged away, and then it is the one
      edge to the device that replaced it. */
  ghost predicate EdgesMatch(db: Db) {
    && (forall id :: id in db.aliases <==> id in db.devices && db.devices[id].supersededBy.Some?)
    && (forall id :: id in db.aliases ==>
       db.devices[id].supersededBy == Some(db.aliases[id]) && db.aliases[id] in db.devices)
  }

  /** The id that `n` edges lead to, or where they end before that. */
  function Follow(aliases: map<string, string>, id: string, n: nat): string
    decreases n
  {
    if n == 0 || id !in aliases then id else Follow(aliases, aliases[id], n - 1)
  }

  /** Where the edges from `id` lead: as many hops as there are edges suffice,
      if there is no cycle. */
  function Root(aliases: map<string, string>, id: string): string { Follow(aliases, id, |aliases|) }

  ghost predicate Acyclic(aliases: map<string, string>) {
    forall id: string {:trigger Root(aliases, id)} :: Root(aliases, id) !in aliases
  }

  ghost predicate Forest(db: Db) { EdgesMatch(db) && Acyclic(db.aliases) }

  // ---- Following edges ----

  lemma {:induction false} FollowAdds(aliases: map<string, string>, id: string, m: nat, n: nat)
    ensures Follow(aliases, id, m + n) == Follow(aliases, Follow(aliases, id, m), n)
    decreases m
  {
    if m > 0 && id in aliases { FollowAdds(aliases, aliases[id], m - 1, n); }
  }

  lemma FollowEnded(aliases: map<string, string>, id: string, n: nat)
    requires id !in aliases
    ensures Follow(aliases, id, n) == id
  {}

  /** No edges lead from a device back to itself. */
  lemma NoCycle(aliases: map<string, string>, id: string, n: nat)
    requires Acyclic(aliases) && id in aliases && n > 0
    ensures Follow(aliases, id, n) != id
  {
    if Follow(aliases, id, n) == id {
      Repeats(aliases, id, n, |aliases|);
      EndsAfter(aliases, id, n * |aliases|);
    }
  }

  lemma EndsAfter(aliases: map<string, string>, id: string, n: nat)
    requires Acyclic(aliases) && n >= |aliases|
    ensures Follow(aliases, id, n) !in aliases
  {
    FollowAdds(aliases, id, |aliases|, n - |aliases|);
    assert Root(aliases, id) !in aliases;
    FollowEnded(aliases, Root(aliases, id), n - |aliases|);
  }

  lemma OneEdgeMore(aliases: map<string, string>, from: string, to: string)
    requires from !in aliases
    ensures |aliases[from := to]| == |aliases| + 1
  {
    assert aliases[from := to].Keys == aliases.Keys + {from};
    assert |aliases.Keys + {from}| == |aliases.Keys| + 1;
    assert |aliases[from := to].Keys| == |aliases[from := to]|;
  }

  lemma {:induction false} Repeats(aliases: map<string, string>, id: string, n: nat, k: nat)
    requires Follow(aliases, id, n) == id
    ensures Follow(aliases, id, n * k) == id
    decreases k
  {
    if k > 0 {
      Repeats(aliases, id, n, k - 1);
      assert n * k == n * (k - 1) + n;
      FollowAdds(aliases, id, n * (k - 1), n);
    } else {
      assert n * k == 0;
    }
  }

  /** One edge more, between two roots. */
  lemma {:induction false} FollowWithEdge(aliases: map<string, string>, from: string, to: string, id: string, n: nat)
    requires from !in aliases && to !in aliases && from != to && Follow(aliases, id, n) !in aliases
    ensures Follow(aliases[from := to], id, n + 1) ==
            if Follow(aliases, id, n) == from then to else Follow(aliases, id, n)
    decreases n
  {
    var aliases' := aliases[from := to];
    if id in aliases {
      assert id in aliases' && aliases'[id] == aliases[id];
      FollowWithEdge(aliases, from, to, aliases[id], n - 1);
    } else {
      FollowEnded(aliases, id, n);
      if id == from { FollowEnded(aliases', to, n); } else { FollowEnded(aliases', id, n + 1); }
    }
  }

  /** A merge hangs the whole tree of `from` under `to`, and moves no other. */
  lemma RootAfterEdge(aliases: map<string, string>, from: string, to: string, id: string)
    requires Acyclic(aliases) && from !in aliases && to !in aliases && from != to
    ensures Root(aliases[from := to], id) == if Root(aliases, id) == from then to else Root(aliases, id)
  {
    assert Root(aliases, id) !in aliases;
    OneEdgeMore(aliases, from, to);
    FollowWithEdge(aliases, from, to, id, |aliases|);
  }

  lemma EdgeKeepsAcyclic(aliases: map<string, string>, from: string, to: string)
    requires Acyclic(aliases) && from !in aliases && to !in aliases && from != to
    ensures Acyclic(aliases[from := to])
  {
    hide Root;
    var aliases' := aliases[from := to];
    forall id: string ensures Root(aliases', id) !in aliases' {
      RootAfterEdge(aliases, from, to, id);
      assert Root(aliases, id) !in aliases;
    }
  }

  // ---- One step ----

  /** When a merge is refused nothing changes; when it succeeds, both devices
      were live and not this one, and one of them was paired. */
  lemma MergeSucceedsIff(db: Db, from: string, to: string)
    ensures var (db', r) := Merged(db, from, to);
            && (r.Err? ==> db' == db)
            && (r.Ok? <==>
                  && from != to && from in Live(db) && to in Live(db)
                  && !db.devices[from].device.isSelf && !db.devices[to].device.isSelf
                  && (db.devices[from].device.paired || db.devices[to].device.paired))
  {}

  /** A successful merge: one live device fewer, an edge from it, no secret left
      for it; and the surviving row is paired, as early as the earlier of the
      two, keeps its own alias, last sync and fingerprint, and inherits what it
      had none of. */
  lemma MergeFacts(db: Db, from: string, to: string)
    requires Merged(db, from, to).1.Ok?
    ensures var db' := Merged(db, from, to).0;
            && db'.devices.Keys == db.devices.Keys
            && Live(db') == Live(db) - {from} && from in Live(db) && |Live(db')| == |Live(db)| - 1
            && db'.aliases == db.aliases[from := to] && db'.secrets == db.secrets - {from}
            && db'.devices[from].supersededBy == Some(to) && !db'.devices[from].device.online
            && (forall id :: id in db.devices && id != from && id != to ==> db'.devices[id] == db.devices[id])
            && var (f, t, t') := (db.devices[from].device, db.devices[to].device, db'.devices[to].device);
               && t'.paired && t'.pairedAt <= t.pairedAt && t'.pairedAt <= f.pairedAt
               && t'.pairedAt in {t.pairedAt, f.pairedAt}
               && t'.alias == (if t.alias.None? then f.alias else t.alias)
               && t'.lastSyncAt == (if t.lastSyncAt.None? then f.lastSyncAt else t.lastSyncAt)
               && t'.machineUid == (if t.machineUid.None? then f.machineUid else t.machineUid)
               && t'.name == t.name && t'.ip == t.ip && t'.port == t.port
               && db'.devices[to].seenVia == db.devices[to].seenVia
  {
    var db' := Merged(db, from, to).0;
    assert forall id :: id in Live(db') <==> id in Live(db) && id != from;
    OneFewer(Live(db'), Live(db), from);
  }

  lemma OneFewer(less: set<string>, all: set<string>, x: string)
    requires x in all && forall y :: y in less <==> y in all && y != x
    ensures less == all - {x} && |less| == |all| - 1
  {
    assert less == all - {x};
  }

  lemma MergedEdges(db: Db, from: string, to: string)
    requires EdgesMatch(db) && Merged(db, from, to).1.Ok?
    ensures EdgesMatch(Merged(db, from, to).0) && Merged(db, from, to).0.aliases == db.aliases[from := to]
    ensures from !in db.aliases && to !in db.aliases && from != to
  {}

  lemma MergeKeepsForest(db: Db, from: string, to: string)
    requires Forest(db)
    ensures Forest(Merged(db, from, to).0)
  {
    hide Acyclic, EdgesMatch, Merged, Live;
    MergeSucceedsIff(db, from, to);
    if Merged(db, from, to).1.Ok? {
      MergedEdges(db, from, to);
      EdgeKeepsAcyclic(db.aliases, from, to);
    }
  }

  lemma StepKeepsForest(db: Db, op: Op)
    requires Forest(db)
    ensures Forest(Step(db, op)) && db.devices.Keys <= Step(db, op).devices.Keys
  {
    hide Acyclic;
    match op
    case Merge(from, to) =>
      MergeKeepsForest(db, from, to);
      MergeSucceedsIff(db, from, to);
      if Merged(db, from, to).1.Ok? { MergeFacts(db, from, to); }
    case Announce(a) => AnnounceKeepsForest(db, a);
    case Register(id, d) =>
  }

  lemma AnnounceKeepsForest(db: Db, a: Discovery.Announcement)
    requires Forest(db)
    ensures Forest(Discovery.Recorded(db, a).0) && db.devices.Keys <= Discovery.Recorded(db, a).0.devices.Keys
  {
    hide Acyclic, Discovery.Recorded;
    var db' := Discovery.Recorded(db, a).0;
    Discovery.OneAnnouncement(db, a, a.id);
    forall id | id in db'.devices
      ensures id in db.devices ==> db'.devices[id].supersededBy == db.devices[id].supersededBy
      ensures id !in db.devices ==> db'.devices[id].supersededBy.None?
    {
      if id in db.devices { Discovery.OneAnnouncement(db, a, id); }
    }
  }

  // ---- Every run ----

  function Merges(db: Db, ops: seq<Op>): nat
    decreases |ops|
  {
    if ops == [] then 0
    else
      (if ops[0].Merge? && Merged(db, ops[0].from, ops[0].to).1.Ok? then 1 else 0) + Merges(Step(db, ops[0]), ops[1..])
  }

  /** In every run without deletions the edges stay a forest, and there is one
      edge more for each merge that succeeded. */
  lemma {:induction false} RunKeepsForest(db: Db, ops: seq<Op>)
    requires Forest(db)
    ensures var db' := Run(db, ops);
            Forest(db') && db.devices.Keys <= db'.devices.Keys && |db'.aliases| == |db.aliases| + Merges(db, ops)
    decreases |ops|
  {
    hide Forest, Merged, Discovery.Recorded, Upserted;
    if ops != [] {
      StepKeepsForest(db, ops[0]);
      EdgesAfterStep(db, ops[0]);
      RunKeepsForest(Step(db, ops[0]), ops[1..]);
    }
  }

  lemma EdgesAfterStep(db: Db, op: Op)
    requires Forest(db)
    ensures |Step(db, op).aliases| == |db.aliases| + if op.Merge? && Merged(db, op.from, op.to).1.Ok? then 1 else 0
  {
    hide Acyclic, Merged, Discovery.Recorded;
    if op.Announce? { Discovery.OneAnnouncement(db, op.announcement, op.announcement.id); }
    if op.Merge? {
      MergeSucceedsIff(db, op.from, op.to);
      if Merged(db, op.from, op.to).1.Ok? {
        MergeFacts(db, op.from, op.to);
        OneEdgeMore(db.aliases, op.from, op.to);
      }
    }
  }

  /** In a forest the edges from any known device end at a live one. */
  lemma RootIsLive(db: Db, id: string)
    requires Forest(db) && id in db.devices
    ensures Root(db.aliases, id) in Live(db)
  {
    assert Root(db.aliases, id) !in db.aliases;
    FollowStaysKnown(db, id, |db.aliases|);
  }

  lemma {:induction false} FollowStaysKnown(db: Db, id: string, n: nat)
    requires EdgesMatch(db) && id in db.devices
    ensures Follow(db.aliases, id, n) in db.devices
    decreases n
  {
    if n > 0 && id in db.aliases { FollowStaysKnown(db, db.aliases[id], n - 1); }
  }

  // ---- Resolving an id ----

  /** In a forest an edge never leads to where it came from, so the loop in
      resolve_device_id just follows edges. */
  lemma {:induction false} FollowedIsFollow(aliases: map<string, string>, id: string, hops: nat)
    requires Acyclic(aliases)
    ensures Followed(aliases, id, hops) == Follow(aliases, id, hops)
    decreases hops
  {
    if hops > 0 && id in aliases {
      NoCycle(aliases, id, 1);
      assert Follow(aliases, id, 1) == aliases[id];
      FollowedIsFollow(aliases, aliases[id], hops - 1);
    }
  }

  /** How many edges lie between a device and its root. */
  function Hops(aliases: map<string, string>, id: string, limit: nat): nat
    decreases limit
  {
    if limit == 0 || id !in aliases then 0 else 1 + Hops(aliases, aliases[id], limit - 1)
  }

  lemma {:induction false} HopsReachRoot(aliases: map<string, string>, id: string, limit: nat, n: nat)
    requires Follow(aliases, id, limit) !in aliases
    ensures Follow(aliases, id, n) !in aliases <==> Hops(aliases, id, limit) <= n
    ensures Hops(aliases, id, limit) <= n ==> Follow(aliases, id, n) == Follow(aliases, id, limit)
    decreases limit
  {
    if id in aliases {
      if n > 0 { HopsReachRoot(aliases, aliases[id], limit - 1, n - 1); }
    } else {
      FollowEnded(aliases, id, limit);
      FollowEnded(aliases, id, n);
    }
  }

  /** Resolving gives the live device at the end of the edges if it is at most
      eight hops away, and otherwise one that was itself merged away. */
  lemma ResolvesIff(db: Db, id: string)
    requires Forest(db) && id in db.devices
    ensures var resolved := Followed(db.aliases, id, MAX_HOPS);
            var hops := Hops(db.aliases, id, |db.aliases|);
            && (hops <= MAX_HOPS ==> resolved == Root(db.aliases, id) && resolved in Live(db))
            && (hops > MAX_HOPS ==> resolved !in Live(db))
  {
    RootIsLive(db, id);
    assert Root(db.aliases, id) !in db.aliases;
    FollowedIsFollow(db.aliases, id, MAX_HOPS);
    HopsReachRoot(db.aliases, id, |db.aliases|, MAX_HOPS);
  }

  /** Merging each of a row of devices into the next. */
  function ChainMerged(db: Db, ids: seq<string>): Db
    decreases |ids|
  {
    if |ids| < 2 then db else ChainMerged(Merged(db, ids[0], ids[1]).0, ids[1..])
  }

  ghost predicate Mergeable(db: Db, ids: seq<string>) {
    && (forall i, j :: 0 <= i < j < |ids| ==> ids[i] != ids[j])
    && forall id :: id in ids ==> id in Live(db) && !db.devices[id].device.isSelf && db.devices[id].device.paired
  }

  /** Each of the devices has an edge to the next. */
  ghost predicate Linked(aliases: map<string, string>, ids: seq<string>) {
    forall i :: 0 <= i < |ids| - 1 ==> ids[i] in aliases && aliases[ids[i]] == ids[i + 1]
  }

  lemma LinkedFrom(aliases: map<string, string>, ids: seq<string>)
    requires |ids| >= 2
    ensures Linked(aliases, ids) <==> ids[0] in aliases && aliases[ids[0]] == ids[1] && Linked(aliases, ids[1..])
  {
    if Linked(aliases, ids[1..]) && ids[0] in aliases && aliases[ids[0]] == ids[1] {
      forall i | 0 <= i < |ids| - 1 ensures ids[i] in aliases && aliases[ids[i]] == ids[i + 1] {
        if i > 0 { assert ids[1..][i - 1] == ids[i] && ids[1..][i] == ids[i + 1]; }
      }
    }
  }

  lemma {:induction false} ChainEdges(db: Db, ids: seq<string>)
    requires Forest(db) && Mergeable(db, ids)
    ensures var db' := ChainMerged(db, ids);
            && Forest(db') && (ids != [] ==> ids[|ids| - 1] in Live(db'))
            && Linked(db'.aliases, ids)
            && (forall x :: x in db.aliases ==> x in db'.aliases && db'.aliases[x] == db.aliases[x])
    decreases |ids|
  {
    if |ids| >= 2 {
      hide Forest, Mergeable, Merged, Live, Linked;
      var db1 := Merged(db, ids[0], ids[1]).0;
      FirstMerge(db, ids);
      ChainEdges(db1, ids[1..]);
      assert db1.aliases[ids[0]] == ids[1];
      LinkedFrom(ChainMerged(db1, ids[1..]).aliases, ids);
    } else {
      LastIsLive(db, ids);
    }
  }

  lemma LastIsLive(db: Db, ids: seq<string>)
    requires Mergeable(db, ids)
    ensures ids != [] ==> ids[|ids| - 1] in Live(db)
  {}

  lemma FirstMerge(db: Db, ids: seq<string>)
    requires Forest(db) && Mergeable(db, ids) && |ids| >= 2
    ensures var db1 := Merged(db, ids[0], ids[1]).0;
            && Forest(db1) && Mergeable(db1, ids[1..])
            && ids[0] !in db.aliases && db1.aliases == db.aliases[ids[0] := ids[1]]
  {
    assert ids[0] in ids && ids[1] in ids;
    LiveHasNoEdge(db, ids[0]);
    hide Forest, Merged;
    MergeSucceedsIff(db, ids[0], ids[1]);
    MergeFacts(db, ids[0], ids[1]);
    MergeKeepsForest(db, ids[0], ids[1]);
    RestMergeable(db, Merged(db, ids[0], ids[1]).0, ids);
  }

  lemma LiveHasNoEdge(db: Db, id: string)
    requires Forest(db) && id in Live(db)
    ensures id !in db.aliases
  {}

  lemma RestMergeable(db: Db, db1: Db, ids: seq<string>)
    requires |ids| >= 2 && Mergeable(db, ids) && Merged(db, ids[0], ids[1]).1.Ok? && db1 == Merged(db, ids[0], ids[1]).0
    ensures Mergeable(db1, ids[1..])
  {
    MergeFacts(db, ids[0], ids[1]);
    forall id | id in ids[1..]
      ensures id in Live(db1) && !db1.devices[id].device.isSelf && db1.devices[id].device.paired
    {
      var i :| 0 <= i < |ids[1..]| && ids[1..][i] == id;
      assert ids[i + 1] == id && ids[0] != id;
      assert id in ids;
    }
  }

  lemma {:induction false} ChainFollow(aliases: map<string, string>, ids: seq<string>, n: nat)
    requires n < |ids| && Linked(aliases, ids)
    ensures Follow(aliases, ids[0], n) == ids[n]
    decreases n
  {
    if n > 0 {
      LinkedFrom(aliases, ids);
      ChainFollow(aliases, ids[1..], n - 1);
    }
  }

  /** Nine merges in a row are one too many: the first device then resolves to
      the ninth, which was merged away too, though the tenth is live. */
  lemma NineMergesDoNotResolve(db: Db, ids: seq<string>)
    requires Forest(db) && |ids| == 10 && Mergeable(db, ids)
    ensures var db' := ChainMerged(db, ids);
            && Root(db'.aliases, ids[0]) == ids[9]
            && Followed(db'.aliases, ids[0], MAX_HOPS) == ids[8] && ids[8] !in Live(db')
  {
    var db' := ChainMerged(db, ids);
    ChainEdges(db, ids);
    ChainFollow(db'.aliases, ids, 9);
    ChainFollow(db'.aliases, ids, 8);
    FollowedIsFollow(db'.aliases, ids[0], MAX_HOPS);
    assert ids[8] in db'.aliases;
    LiveHasNoEdge(db', ids[9]);
    assert Follow(db'.aliases, ids[0], 9) !in db'.aliases;
    assert Root(db'.aliases, ids[0]) !in db'.aliases;
    HopsReachRoot(db'.aliases, ids[0], |db'.aliases|, 9);
    hide Acyclic, ChainMerged, Mergeable, Follow;
  }

  // ---- Trust survives merging ----

  /** The device that `id` has become is paired. */
  ghost predicate RootPaired(db: Db, id: string) {
    var root := Root(db.aliases, id);
    root in Live(db) && db.devices[root].device.paired
  }

  ghost predicate NoStraySecrets(db: Db) { forall id :: id in db.aliases ==> id !in db.secrets }

  /** Once paired, a device stays paired as the live device it becomes, whatever
      is announced and merged. */
  lemma {:induction false} PairingSurvives(db: Db, ops: seq<Op>, id: string)
    requires Forest(db) && id in db.devices && RootPaired(db, id)
    requires forall op :: op in ops ==> !op.Register?
    ensures RootPaired(Run(db, ops), id)
    decreases |ops|
  {
    if ops != [] {
      StepKeepsForest(db, ops[0]);
      PairingSurvivesStep(db, ops[0], id);
      hide Step, Forest, RootPaired;
      PairingSurvives(Step(db, ops[0]), ops[1..], id);
    }
  }

  lemma PairingSurvivesStep(db: Db, op: Op, id: string)
    requires Forest(db) && id in db.devices && !op.Register? && RootPaired(db, id)
    ensures RootPaired(Step(db, op), id)
  {
    StepKeepsForest(db, op);
    RootIsLive(Step(db, op), id);
    LiveHasNoEdge(db, Root(db.aliases, id));
    hide Root;
    match op
    case Announce(a) => Discovery.OneAnnouncement(db, a, Root(db.aliases, id));
    case Merge(from, to) =>
      MergeSucceedsIff(db, from, to);
      if Merged(db, from, to).1.Ok? {
        MergeFacts(db, from, to);
        LiveHasNoEdge(db, from);
        LiveHasNoEdge(db, to);
        RootAfterEdge(db.aliases, from, to, id);
        hide Acyclic, Merged, Live;
      }
    case Register(_, _) =>
  }

  /** Devices that were merged away have no secret left. */
  lemma {:induction false} MergedAwayHaveNoSecret(db: Db, ops: seq<Op>)
    requires Forest(db) && NoStraySecrets(db)
    ensures NoStraySecrets(Run(db, ops))
    decreases |ops|
  {
    if ops != [] {
      StepKeepsForest(db, ops[0]);
      SecretsAfterStep(db, ops[0]);
      hide Step, Forest, NoStraySecrets;
      MergedAwayHaveNoSecret(Step(db, ops[0]), ops[1..]);
    }
  }

  lemma SecretsAfterStep(db: Db, op: Op)
    requires NoStraySecrets(db)
    ensures NoStraySecrets(Step(db, op))
  {
    hide Discovery.Recorded, Live;
    if op.Announce? { Discovery.OneAnnouncement(db, op.announcement, op.announcement.id); }
  }

  // ---- Deletion ----

  /** Deleting a row keeps the forest exactly if the row is not merged away and
      no other was merged into it: the edges are not deleted with it. */
  lemma DeleteKeepsForestIff(db: Db, id: string)
    requires Forest(db)
    ensures Forest(Deleted(db, id)) <==>
            id !in db.devices || (id in Live(db) && forall x :: x in db.aliases ==> db.aliases[x] != id)
  {
    hide Acyclic;
    var db' := Deleted(db, id);
    if id in db.devices && id in Live(db) && forall x :: x in db.aliases ==> db.aliases[x] != id {
      assert EdgesMatch(db');
    }
    if x :| x in db.aliases && db.aliases[x] == id && id in db.devices {
      assert id !in db'.devices && x in db'.aliases;
    }
    if id !in db.devices { assert db'.devices == db.devices; }
  }

  /** Then the edges can even run in a circle: merge `a` into `b`, delete `a`,
      let it be announced again, and merge `b` into it. Now `b` resolves to
      itself, though it was merged away. */
  lemma DeletionMakesACycle(db: Db, a: string, b: string, announced: Discovery.Announcement)
    requires a != b && a in Live(db) && b in Live(db) && announced.id == a
    requires db.devices[b].device.paired && !db.devices[a].device.isSelf && !db.devices[b].device.isSelf
    ensures var again := Discovery.Recorded(Deleted(Merged(db, a, b).0, a), announced).0;
            var (db', r) := Merged(again, b, a);
            && r.Ok? && !Acyclic(db'.aliases)
            && Followed(db'.aliases, b, MAX_HOPS) == b && b !in Live(db')
  {
    var again := Discovery.Recorded(Deleted(Merged(db, a, b).0, a), announced).0;
    var db' := Merged(again, b, a).0;
    Discovery.OneAnnouncement(Deleted(Merged(db, a, b).0, a), announced, b);
    MergeSucceedsIff(again, b, a);
    var m := db'.aliases;
    assert a in m && m[a] == b && b in m && m[b] == a;
    hide Merged, Deleted, Discovery.Recorded;
    RoundAndRound(m, a, b);
    if Acyclic(m) { NoCycle(m, b, 2); }
  }

  lemma RoundAndRound(m: map<string, string>, a: string, b: string)
    requires a != b && a in m && m[a] == b && b in m && m[b] == a
    ensures Followed(m, b, MAX_HOPS) == b && Follow(m, b, 2) == b
  {
    assert forall n: nat :: n >= 2 ==> Followed(m, b, n) == Followed(m, b, n - 2);
    assert Followed(m, b, 8) == Followed(m, b, 6) == Followed(m, b, 4) == Followed(m, b, 2) == Followed(m, b, 0);
  }
}
