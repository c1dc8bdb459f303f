/** Which of two versions of a record is the newer one. */
module Conflict {
  import opened Events

  /** A timestamp column: its text, and the epoch milliseconds that parsing it
      as RFC 3339 (section 5.6) gives, if it parses. */
  datatype Stamp = Stamp(text: string, epochMs: Option<int>)

  /** String order, by code point. */
  predicate Less(a: string, b: string) {
    b != [] && (a == [] || a[0] < b[0] || (a[0] == b[0] && Less(a[1..], b[1..])))
  }

  function DeviceKey(dev: Option<string>): string {
    if dev.Some? then dev.value else ""
  }

  predicate ComparableMs(a: Stamp, b: Stamp) {
    a.epochMs.Some? && b.epochMs.Some? && a.epochMs != b.epochMs
  }

  /** Unequal parsed milliseconds decide; otherwise the device id does. */
  predicate IncomingNewer(incomingTs: Stamp, incomingDev: Option<string>, localTs: Stamp, localDev: Option<string>) {
    if ComparableMs(incomingTs, localTs) then incomingTs.epochMs.value > localTs.epochMs.value
    else Less(DeviceKey(localDev), DeviceKey(incomingDev))
  }

  /** What arbitration looks at. */
  datatype Rev = Rev(ts: Stamp, dev: Option<string>) {
    predicate Newer(other: Rev) { IncomingNewer(ts, dev, other.ts, other.dev) }

    predicate Parsed() { ts.epochMs.Some? }

    /** Neither side wins. */
    predicate Tied(other: Rev) {
      !ComparableMs(ts, other.ts) && DeviceKey(dev) == DeviceKey(other.dev)
    }
  }

  lemma {:induction false} LessIsTotal(a: string, b: string)
    ensures !(Less(a, b) && Less(b, a))
    ensures !Less(a, b) && !Less(b, a) <==> a == b
  {
    if a != [] && b != [] && a[0] == b[0] {
      LessIsTotal(a[1..], b[1..]);
      assert a == [a[0]] + a[1..] && b == [b[0]] + b[1..];
    }
  }

  lemma {:induction false} LessIsTransitive(a: string, b: string, c: string)
    requires Less(a, b) && Less(b, c)
    ensures Less(a, c)
  {
    if a != [] && a[0] == b[0] && b[0] == c[0] {
      LessIsTransitive(a[1..], b[1..], c[1..]);
    }
  }

  /** At most one side wins, and none exactly on a tie: the two ends of a
      transfer decide a pair the same way, whatever its timestamps look like. */
  lemma NewerTrichotomy(a: Rev, b: Rev)
    ensures !(a.Newer(b) && b.Newer(a))
    ensures !a.Newer(b) && !b.Newer(a) <==> a.Tied(b)
  {
    LessIsTotal(DeviceKey(a.dev), DeviceKey(b.dev));
  }

  /** Either all three timestamps parse, or none. */
  predicate Uniform(a: Rev, b: Rev, c: Rev) { a.Parsed() == b.Parsed() == c.Parsed() }

  /** Among such versions "not older" is transitive, so a newest one exists. */
  lemma NewerTransitive(a: Rev, b: Rev, c: Rev)
    requires Uniform(a, b, c)
    requires !b.Newer(a) && !c.Newer(b)
    ensures !c.Newer(a)
    ensures c.Tied(a) ==> b.Tied(a)
  {
    NewerTrichotomy(a, b);
    NewerTrichotomy(b, c);
    LessIsTotal(DeviceKey(a.dev), DeviceKey(c.dev));
    LessIsTotal(DeviceKey(a.dev), DeviceKey(b.dev));
    LessIsTotal(DeviceKey(b.dev), DeviceKey(c.dev));
    if Less(DeviceKey(b.dev), DeviceKey(a.dev)) && Less(DeviceKey(c.dev), DeviceKey(b.dev)) {
      LessIsTransitive(DeviceKey(c.dev), DeviceKey(b.dev), DeviceKey(a.dev));
    }
  }

  predicate Ring(a: Rev, b: Rev, c: Rev) { a.Newer(b) && b.Newer(c) && c.Newer(a) }

  /** `a` is later than `b` by the clock, both parsed; `c` does not parse, and its
      device lies between theirs, the wrong way round. */
  predicate Between(a: Rev, b: Rev, c: Rev) {
    && a.Parsed() && b.Parsed() && !c.Parsed() && a.ts.epochMs.value > b.ts.epochMs.value
    && Less(DeviceKey(a.dev), DeviceKey(c.dev)) && Less(DeviceKey(c.dev), DeviceKey(b.dev))
  }

  /** Three versions beat each other in a ring if and only if one of them does not
      parse and lies between the other two so. */
  lemma RingIff(a: Rev, b: Rev, c: Rev)
    ensures Ring(a, b, c) <==> Between(a, b, c) || Between(b, c, a) || Between(c, a, b)
  {
    hide Less;
    NoDeviceRing(a, b, c);
    NoDeviceRing(b, c, a);
    NoDeviceRing(c, a, b);
    NoDeviceRing(c, b, a);
    NoDeviceRing(b, a, c);
    NoDeviceRing(a, c, b);
    LessIsTotal(DeviceKey(a.dev), DeviceKey(b.dev));
    LessIsTotal(DeviceKey(b.dev), DeviceKey(c.dev));
    LessIsTotal(DeviceKey(c.dev), DeviceKey(a.dev));
  }

  lemma NoDeviceRing(a: Rev, b: Rev, c: Rev)
    ensures Less(DeviceKey(a.dev), DeviceKey(b.dev)) && Less(DeviceKey(b.dev), DeviceKey(c.dev)) ==>
              Less(DeviceKey(a.dev), DeviceKey(c.dev)) && !Less(DeviceKey(c.dev), DeviceKey(a.dev))
  {
    if Less(DeviceKey(a.dev), DeviceKey(b.dev)) && Less(DeviceKey(b.dev), DeviceKey(c.dev)) {
      LessIsTransitive(DeviceKey(a.dev), DeviceKey(b.dev), DeviceKey(c.dev));
      LessIsTotal(DeviceKey(a.dev), DeviceKey(c.dev));
    }
  }

  /** For instance: one unparsable timestamp is enough for a ring. */
  lemma UnparsedRing()
    ensures exists a: Rev, b: Rev, c: Rev ::
        a.Parsed() && b.Parsed() && !c.Parsed() && Ring(a, b, c)
  {
    var a, b := Rev(Stamp("t2", Some(2)), Some("a")), Rev(Stamp("t1", Some(1)), Some("c"));
    var c := Rev(Stamp("x", None), Some("b"));
    assert Ring(a, b, c);
  }
}
