/** The device tables: known devices, their secrets, and the edges that lead
    from a merged-away device to the one that replaced it. */
module Devices {
  import opened Events

  datatype Device = Device(name: string, kind: string, ip: string, port: nat, pairedAt: int, lastSyncAt: Option<int>,
                           lastSeenAt: Option<int>, online: bool, isSelf: bool, paired: bool, alias: Option<string>,
                           machineUid: Option<string>)

  /** A stored device. `seenVia` and `seenViaAt`: who last wrote its address, and
      when; `supersededBy`: the device it was merged into. */
  datatype Row = Row(device: Device, seenVia: string, seenViaAt: Option<int>, supersededBy: Option<string>)

  datatype Db = Db(devices: map<string, Row>, secrets: map<string, string>, aliases: map<string, string>)

  datatype MergeError =
    | SameDevice | NotFound(id: string) | IsSelf(self: string) | AlreadyMerged(merged: string) | NeitherPaired

  datatype Result<+T> = Ok(value: T) | Err(error: MergeError)

  /** An alias edge leads at most this many hops. */
  const MAX_HOPS := 8

  function OrElse<T>(a: Option<T>, b: Option<T>): Option<T> { if a.Some? then a else b }

  // ---- Rows ----

  function Upserted(db: Db, id: string, d: Device): Db {
    var row :=
      if id !in db.devices then Row(d, "", None, None)
      else
        var was := db.devices[id];
        was.(device := d.(pairedAt := was.device.pairedAt, machineUid := OrElse(d.machineUid, was.device.machineUid)));
    db.(devices := db.devices[id := row])
  }

  function Discovered(db: Db, id: string, d: Device, via: string): Db {
    var row :=
      if id !in db.devices then
        Row(d.(lastSyncAt := None, online := true, isSelf := false, paired := false, alias := None, machineUid := None),
            via, d.lastSeenAt, None)
      else
        var was := db.devices[id];
        Row(was.device.(name := if was.device.paired then was.device.name else d.name,
                        kind := d.kind, ip := d.ip, port := d.port,
                        lastSeenAt := d.lastSeenAt, online := true, isSelf := false),
            via, d.lastSeenAt, was.supersededBy);
    db.(devices := db.devices[id := row])
  }

  function Touched(db: Db, id: string, now: int): Db {
    if id in db.devices && !db.devices[id].device.isSelf then
      var was := db.devices[id];
      db.(devices := db.devices[id := was.(device := was.device.(lastSeenAt := Some(now), online := true))])
    else db
  }

  function Deleted(db: Db, id: string): Db {
    db.(devices := db.devices - {id}, secrets := db.secrets - {id})
  }

  // ---- Merging ----

  function Checked(db: Db, id: string): Result<bool> {
    if id !in db.devices then Err(NotFound(id))
    else
      var row := db.devices[id];
      if row.device.isSelf then Err(IsSelf(id))
      else if row.supersededBy.Some? then Err(AlreadyMerged(id))
      else Ok(row.device.paired)
  }

  /** The surviving row takes from the other what it has not got itself. */
  function Absorbed(to: Device, from: Device): Device {
    to.(alias := OrElse(to.alias, from.alias),
        paired := to.paired || from.paired, pairedAt := Min(to.pairedAt, from.pairedAt),
        lastSyncAt := OrElse(to.lastSyncAt, from.lastSyncAt), machineUid := OrElse(to.machineUid, from.machineUid))
  }

  function Merged(db: Db, from: string, to: string): (Db, Result<()>) {
    if from == to then (db, Err(SameDevice))
    else
      var f, t := Checked(db, from), Checked(db, to);
      if f.Err? then (db, Err(f.error))
      else if t.Err? then (db, Err(t.error))
      else if !t.value && !f.value then (db, Err(NeitherPaired))
      else
        var gone := db.devices[from].(supersededBy := Some(to), device := db.devices[from].device.(online := false));
        var kept := db.devices[to].(device := Absorbed(db.devices[to].device, gone.device));
        (Db(db.devices[from := gone][to := kept], db.secrets - {from}, db.aliases[from := to]), Ok(()))
  }

  /** Follows at most `hops` edges; an edge to itself leads nowhere. */
  function Followed(aliases: map<string, string>, id: string, hops: nat): string
    decreases hops
  {
    if hops == 0 || id !in aliases || aliases[id] == id then id else Followed(aliases, aliases[id], hops - 1)
  }

  class SyncDb {
    var devices: map<string, Row>
    var secrets: map<string, string>
    var aliases: map<string, string>

    function State(): Db
      reads this
    {
      Db(devices, secrets, aliases)
    }

    constructor ()
      ensures State() == Db(map[], map[], map[])
    {
      devices, secrets, aliases := map[], map[], map[];
    }

    method UpsertDevice(id: string, d: Device)
      modifies this`devices
      ensures State() == Upserted(old(State()), id, d)
    {
      if id in devices {
        var row := devices[id];
        var d' := d.(pairedAt := row.device.pairedAt, machineUid := OrElse(d.machineUid, row.device.machineUid));
        devices := devices[id := row.(device := d')];
      } else {
        devices := devices[id := Row(d, "", None, None)];
      }
    }

    method UpsertDiscovered(id: string, d: Device, via: string)
      modifies this`devices
      ensures State() == Discovered(old(State()), id, d, via)
    {
      if id in devices {
        var row := devices[id];
        var name := if row.device.paired then row.device.name else d.name;
        var d' := row.device.(name := name, kind := d.kind, ip := d.ip, port := d.port, lastSeenAt := d.lastSeenAt);
        devices := devices[id := Row(d'.(online := true, isSelf := false), via, d.lastSeenAt, row.supersededBy)];
      } else {
        var d' := d.(lastSyncAt := None, online := true, isSelf := false, paired := false,
                     alias := None, machineUid := None);
        devices := devices[id := Row(d', via, d.lastSeenAt, None)];
      }
    }

    /** Who last wrote the address of the device; none if it was never seen. */
    method DeviceSeenSource(id: string) returns (source: Option<(string, Option<int>)>)
      ensures source == if id in devices then Some((devices[id].seenVia, devices[id].seenViaAt)) else None
    {
      source := if id in devices then Some((devices[id].seenVia, devices[id].seenViaAt)) else None;
    }

    method TouchSeen(id: string, now: int)
      modifies this`devices
      ensures State() == Touched(old(State()), id, now)
    {
      if id in devices && !devices[id].device.isSelf {
        var row := devices[id];
        devices := devices[id := row.(device := row.device.(lastSeenAt := Some(now), online := true))];
      }
    }

    method DeleteDevice(id: string) returns (existed: bool)
      modifies this
      ensures State() == Deleted(old(State()), id) && existed == (id in old(devices))
    {
      existed := id in devices;
      devices := devices - {id};
      secrets := secrets - {id};
    }

    method Check(id: string) returns (paired: Result<bool>)
      ensures paired == Checked(State(), id)
    {
      if id !in devices {
        return Err(NotFound(id));
      }
      var row := devices[id];
      if row.device.isSelf {
        return Err(IsSelf(id));
      }
      if row.supersededBy.Some? {
        return Err(AlreadyMerged(id));
      }
      return Ok(row.device.paired);
    }

    method MergeDevice(from: string, to: string) returns (r: Result<()>)
      modifies this
      ensures (State(), r) == Merged(old(State()), from, to)
    {
      if from == to {
        return Err(SameDevice);
      }
      var fromPaired := Check(from);
      if fromPaired.Err? {
        return Err(fromPaired.error);
      }
      var toPaired := Check(to);
      if toPaired.Err? {
        return Err(toPaired.error);
      }
      if !toPaired.value && !fromPaired.value {
        return Err(NeitherPaired);
      }
      secrets := secrets - {from};
      var gone := devices[from].(supersededBy := Some(to), device := devices[from].device.(online := false));
      devices := devices[from := gone];
      aliases := aliases[from := to];
      var kept := devices[to].device;
      kept := kept.(alias := OrElse(kept.alias, gone.device.alias), paired := kept.paired || gone.device.paired);
      kept := kept.(pairedAt := Min(kept.pairedAt, gone.device.pairedAt));
      kept := kept.(lastSyncAt := OrElse(kept.lastSyncAt, gone.device.lastSyncAt));
      kept := kept.(machineUid := OrElse(kept.machineUid, gone.device.machineUid));
      devices := devices[to := devices[to].(device := kept)];
      return Ok(());
    }

    method ResolveDeviceId(id: string) returns (cur: string)
      ensures cur == Followed(aliases, id, MAX_HOPS)
    {
      cur := id;
      for hop := 0 to MAX_HOPS
        invariant Followed(aliases, cur, MAX_HOPS - hop) == Followed(aliases, id, MAX_HOPS)
      {
        if cur in aliases && aliases[cur] != cur {
          cur := aliases[cur];
        } else {
          break;
        }
      }
    }
  }
}
