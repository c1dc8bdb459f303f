/** Announcements of devices on the network: over mDNS, or by UDP broadcast,
    which must not overwrite an address that mDNS reported a moment ago. */
module Discovery {
  import opened Events
  import opened Devices

  const MDNS_FRESH_SECS := 45

  const NANOS_PER_SEC := 1_000_000_000

  datatype PeerSource = Mdns | UdpBroadcast {
    function AsStr(): string { if Mdns? then "mdns" else "udp" }
  }

  /** `now` is when the announcement is judged; `touched`, when the row of a
      device whose announcement lost is refreshed. */
  datatype Announcement = Announcement(id: string, device: Device, via: PeerSource, now: int, touched: int)

  /** Whole seconds of a span of nanoseconds, rounded towards zero. */
  function NumSeconds(span: int): int { if span >= 0 then span / NANOS_PER_SEC else -(-span / NANOS_PER_SEC) }

  predicate SourceWins(existing: Option<(string, Option<int>)>, incoming: PeerSource, now: int) {
    if existing.None? then true
    else
      var (via, seen) := existing.value;
      incoming == UdpBroadcast && via == "mdns" && seen.Some? ==> NumSeconds(now - seen.value) >= MDNS_FRESH_SECS
  }

  function SeenSource(db: Db, id: string): Option<(string, Option<int>)> {
    if id in db.devices then Some((db.devices[id].seenVia, db.devices[id].seenViaAt)) else None
  }

  function Recorded(db: Db, a: Announcement): (Db, bool) {
    var d := a.device.(isSelf := false, paired := false, lastSeenAt := Some(a.now));
    if !SourceWins(SeenSource(db, a.id), a.via, a.now) then (Touched(db, a.id, a.touched), false)
    else (Discovered(db, a.id, d, a.via.AsStr()), true)
  }

  /** Returns whether the announcement was allowed to write the address. */
  method RecordPeer(db: SyncDb, a: Announcement) returns (accepted: bool)
    modifies db
    ensures (db.State(), accepted) == Recorded(old(db.State()), a)
  {
    var dev := a.device.(isSelf := false);
    dev := dev.(paired := false);
    dev := dev.(lastSeenAt := Some(a.now));
    var existing := db.DeviceSeenSource(a.id);
    if !SourceWins(existing, a.via, a.now) {
      db.TouchSeen(a.id, a.touched);
      return false;
    }
    db.UpsertDiscovered(a.id, dev, a.via.AsStr());
    return true;
  }

  /** The tables after the announcements. */
  function After(db: Db, run: seq<Announcement>): Db
    decreases |run|
  {
    if |run| == 0 then db else Recorded(After(db, run[..|run| - 1]), run[|run| - 1]).0
  }

  /** Whether announcement `k` was accepted when its turn came. */
  predicate Accepted(db: Db, run: seq<Announcement>, k: nat)
    requires k < |run|
  {
    Recorded(After(db, run[..k]), run[k]).1
  }

  // ---- The clock ----

  /** Rounding does not matter: 45 whole seconds have passed exactly if 45
      seconds have. */
  lemma SecondsPassedIff(span: int)
    ensures NumSeconds(span) >= MDNS_FRESH_SECS <==> span >= MDNS_FRESH_SECS * NANOS_PER_SEC
  {}

  predicate Within(earlier: int, later: int) { later - earlier < MDNS_FRESH_SECS * NANOS_PER_SEC }

  /** The address in the row is one that mDNS reported less than 45 s before `now`. */
  predicate Fresh(db: Db, id: string, now: int) {
    && id in db.devices && db.devices[id].seenVia == "mdns"
    && db.devices[id].seenViaAt.Some? && Within(db.devices[id].seenViaAt.value, now)
  }

  lemma RejectedIff(db: Db, a: Announcement)
    ensures !Recorded(db, a).1 <==> a.via == UdpBroadcast && Fresh(db, a.id, a.now)
  {
    if Fresh(db, a.id, a.now) || (a.id in db.devices && db.devices[a.id].seenViaAt.Some?) {
      SecondsPassedIff(a.now - db.devices[a.id].seenViaAt.value);
    }
  }

  /** The parts of a row that only an accepted announcement writes. */
  predicate SameAddress(r: Row, r': Row) {
    && r'.device.ip == r.device.ip && r'.device.port == r.device.port && r'.device.name == r.device.name
    && r'.device.kind == r.device.kind && r'.seenVia == r.seenVia && r'.seenViaAt == r.seenViaAt
  }

  /** The parts of a row that no announcement writes. */
  predicate SameTrust(r: Row, r': Row) {
    && r'.device.paired == r.device.paired && r'.device.alias == r.device.alias
    && r'.device.pairedAt == r.device.pairedAt
    && r'.device.lastSyncAt == r.device.lastSyncAt && r'.device.machineUid == r.device.machineUid
    && r'.supersededBy == r.supersededBy
    && (r.device.paired ==> r'.device.name == r.device.name)
  }

  lemma OneAnnouncement(db: Db, a: Announcement, id: string)
    requires id in db.devices || id == a.id
    ensures var (db', accepted) := Recorded(db, a);
            && db'.secrets == db.secrets && db'.aliases == db.aliases && id in db'.devices
            && db'.devices.Keys == db.devices.Keys + {a.id}
            && (id != a.id ==> db'.devices[id] == db.devices[id])
            && (id == a.id && !accepted ==> id in db.devices && SameAddress(db.devices[id], db'.devices[id]))
            && (id == a.id && accepted ==>
                  && db'.devices[id].device.ip == a.device.ip && db'.devices[id].device.port == a.device.port
                  && db'.devices[id].seenVia == a.via.AsStr() && db'.devices[id].seenViaAt == Some(a.now))
            && (id in db.devices ==> SameTrust(db.devices[id], db'.devices[id]))
            && (id !in db.devices ==>
                  && !db'.devices[id].device.paired && db'.devices[id].device.alias.None?
                  && db'.devices[id].supersededBy.None?)
  {}

  /** No run of announcements, in any order and at any times, makes a device
      paired or unpaired, changes its alias or the name of a paired one, touches
      a secret or an edge, or forgets a device. */
  lemma {:induction false} RunKeepsTrust(db: Db, run: seq<Announcement>)
    ensures var db' := After(db, run);
            && db'.secrets == db.secrets && db'.aliases == db.aliases
            && (forall id :: id in db.devices ==> id in db'.devices && SameTrust(db.devices[id], db'.devices[id]))
            && (forall id :: id in db'.devices && id !in db.devices ==>
                  && !db'.devices[id].device.paired && db'.devices[id].device.alias.None?
                  && db'.devices[id].supersededBy.None?)
    decreases |run|
  {
    hide Recorded;
    if |run| > 0 {
      var a, before := run[|run| - 1], After(db, run[..|run| - 1]);
      RunKeepsTrust(db, run[..|run| - 1]);
      OneAnnouncement(before, a, a.id);
      forall id | id in before.devices
        ensures var db' := Recorded(before, a).0;
                id in db'.devices && SameTrust(before.devices[id], db'.devices[id])
      {
        OneAnnouncement(before, a, id);
      }
    }
  }

  // ---- Arbitration ----

  /** Within 45 s of the mDNS report in the row no broadcast changes the address
      or the window, however many arrive: they do not renew it either. */
  lemma {:induction false} WindowHolds(db: Db, run: seq<Announcement>, id: string)
    requires id in db.devices
    requires forall a :: a in run && a.id == id ==> a.via == UdpBroadcast && Fresh(db, id, a.now)
    ensures var db' := After(db, run); id in db'.devices && SameAddress(db.devices[id], db'.devices[id])
    ensures forall k :: 0 <= k < |run| && run[k].id == id ==> !Accepted(db, run, k)
    decreases |run|
  {
    hide Recorded;
    if |run| > 0 {
      var n := |run| - 1;
      var before, a := After(db, run[..n]), run[n];
      WindowHolds(db, run[..n], id);
      forall k | 0 <= k < n && run[k].id == id ensures !Accepted(db, run, k) {
        assert run[..n][..k] == run[..k];
        assert !Accepted(db, run[..n], k);
      }
      OneAnnouncement(before, a, id);
      RejectedIff(before, a);
    }
  }

  /** mDNS is always accepted, and so is the first broadcast 45 s after it. */
  lemma AcceptedAtOnce(db: Db, a: Announcement)
    requires a.via == Mdns || !Fresh(db, a.id, a.now)
    ensures var (db', accepted) := Recorded(db, a);
            && accepted && a.id in db'.devices
            && db'.devices[a.id].device.ip == a.device.ip && db'.devices[a.id].device.port == a.device.port
            && (Fresh(db', a.id, a.now) <==> a.via == Mdns)
  {
    RejectedIff(db, a);
    OneAnnouncement(db, a, a.id);
    hide Recorded;
  }

  /** The clock never runs back, nor did it since the row was written. */
  ghost predicate Monotone(db: Db, run: seq<Announcement>) {
    && (forall i, j :: 0 <= i < j < |run| ==> run[i].now <= run[j].now)
    && (forall a :: a in run && a.id in db.devices && db.devices[a.id].seenViaAt.Some? ==>
          db.devices[a.id].seenViaAt.value <= a.now)
  }

  /** mDNS reported the device less than 45 s before `now`: in the row at the
      start of the run, or during the run. */
  ghost predicate RecentMdns(db: Db, run: seq<Announcement>, id: string, now: int) {
    Fresh(db, id, now) || exists j :: 0 <= j < |run| && MdnsAt(run, j, id) && Within(run[j].now, now)
  }

  predicate MdnsAt(run: seq<Announcement>, j: nat, id: string)
    requires j < |run|
  {
    run[j].id == id && run[j].via == Mdns
  }

  /** The window in the row is the window of the whole past. */
  lemma {:induction false} FreshIsRecentMdns(db: Db, run: seq<Announcement>, id: string, now: int)
    requires Monotone(db, run) && forall a :: a in run ==> a.now <= now
    ensures Fresh(After(db, run), id, now) <==> RecentMdns(db, run, id, now)
    decreases |run|
  {
    hide Recorded, Within;
    if |run| > 0 {
      var n := |run| - 1;
      var before, a := After(db, run[..n]), run[n];
      FreshIsRecentMdns(db, run[..n], id, now);
      if a.id != id {
        OtherDevice(db, run, id, now);
      } else if a.via == Mdns {
        AcceptedAtOnce(before, a);
        OneAnnouncement(before, a, id);
        assert MdnsAt(run, n, id);
        MdnsOpensWindow(db, run, id, now);
      } else {
        FreshIsRecentMdns(db, run[..n], id, a.now);
        BroadcastKeepsWindow(db, run, id, now);
      }
    }
  }

  lemma RecentMdnsOneMore(db: Db, run: seq<Announcement>, id: string, now: int)
    requires |run| > 0
    ensures RecentMdns(db, run, id, now) <==>
      RecentMdns(db, run[..|run| - 1], id, now) || (MdnsAt(run, |run| - 1, id) && Within(run[|run| - 1].now, now))
  {
    var n := |run| - 1;
    if RecentMdns(db, run[..n], id, now) && !Fresh(db, id, now) {
      var j :| 0 <= j < n && MdnsAt(run[..n], j, id) && Within(run[..n][j].now, now);
      assert MdnsAt(run, j, id);
    }
    if RecentMdns(db, run, id, now) && !Fresh(db, id, now) {
      var j :| 0 <= j < |run| && MdnsAt(run, j, id) && Within(run[j].now, now);
      assert j < n ==> MdnsAt(run[..n], j, id);
    }
  }

  lemma OtherDevice(db: Db, run: seq<Announcement>, id: string, now: int)
    requires |run| > 0 && run[|run| - 1].id != id
    requires Fresh(After(db, run[..|run| - 1]), id, now) <==> RecentMdns(db, run[..|run| - 1], id, now)
    ensures Fresh(After(db, run), id, now) <==> RecentMdns(db, run, id, now)
  {
    hide Recorded, Within, RecentMdns;
    var before, a := After(db, run[..|run| - 1]), run[|run| - 1];
    RecentMdnsOneMore(db, run, id, now);
    OneAnnouncement(before, a, a.id);
    if id in before.devices { OneAnnouncement(before, a, id); }
  }

  lemma MdnsOpensWindow(db: Db, run: seq<Announcement>, id: string, now: int)
    requires |run| > 0 && MdnsAt(run, |run| - 1, id)
    requires Monotone(db, run) && forall a :: a in run ==> a.now <= now
    ensures Fresh(After(db, run), id, now) <==> RecentMdns(db, run, id, now)
  {
    var a := run[|run| - 1];
    AcceptedAtOnce(After(db, run[..|run| - 1]), a);
    OneAnnouncement(After(db, run[..|run| - 1]), a, id);
    assert a in run;
    hide Recorded, After;
    if RecentMdns(db, run, id, now) && !Fresh(db, id, now) {
      var j :| 0 <= j < |run| && MdnsAt(run, j, id) && Within(run[j].now, now);
      assert run[j].now <= a.now;
    }
  }

  lemma BroadcastKeepsWindow(db: Db, run: seq<Announcement>, id: string, now: int)
    requires |run| > 0 && run[|run| - 1].id == id && run[|run| - 1].via == UdpBroadcast && run[|run| - 1].now <= now
    requires var n := |run| - 1;
             && (Fresh(After(db, run[..n]), id, now) <==> RecentMdns(db, run[..n], id, now))
             && (Fresh(After(db, run[..n]), id, run[n].now) <==> RecentMdns(db, run[..n], id, run[n].now))
    ensures Fresh(After(db, run), id, now) <==> RecentMdns(db, run, id, now)
  {
    var before, a := After(db, run[..|run| - 1]), run[|run| - 1];
    hide Recorded, After;
    RecentMdnsOneMore(db, run, id, now);
    RejectedIff(before, a);
    OneAnnouncement(before, a, id);
    hide RecentMdns;
  }

  /** Over every run with a clock that does not run back: a broadcast is
      suppressed if and only if mDNS reported the same device less than 45 s
      before it. What other broadcasts did in between makes no difference. */
  lemma AcceptedIff(db: Db, run: seq<Announcement>, k: nat)
    requires k < |run| && Monotone(db, run)
    ensures Accepted(db, run, k) <==> run[k].via == Mdns || !RecentMdns(db, run[..k], run[k].id, run[k].now)
  {
    hide Recorded, RecentMdns, Fresh;
    FreshIsRecentMdns(db, run[..k], run[k].id, run[k].now);
    RejectedIff(After(db, run[..k]), run[k]);
  }

  /** The address of a device is that of its last accepted announcement. */
  lemma {:induction false} AddressIsLastAccepted(db: Db, run: seq<Announcement>, k: nat)
    requires k < |run| && Accepted(db, run, k)
    requires forall j :: k < j < |run| && run[j].id == run[k].id ==> !Accepted(db, run, j)
    ensures var db' := After(db, run);
            && run[k].id in db'.devices
            && db'.devices[run[k].id].device.ip == run[k].device.ip
            && db'.devices[run[k].id].device.port == run[k].device.port
            && db'.devices[run[k].id].seenVia == run[k].via.AsStr()
            && db'.devices[run[k].id].seenViaAt == Some(run[k].now)
    decreases |run|
  {
    hide Recorded;
    var n := |run| - 1;
    if k == n {
      OneAnnouncement(After(db, run[..n]), run[n], run[k].id);
    } else {
      assert run[..n][..k] == run[..k];
      forall j | k < j < n && run[j].id == run[k].id ensures !Accepted(db, run[..n], j) {
        assert run[..n][..j] == run[..j];
      }
      AddressIsLastAccepted(db, run[..n], k);
      OneAnnouncement(After(db, run[..n]), run[n], run[k].id);
    }
  }
}
