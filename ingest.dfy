/** Record ingest: the conntrack dump callback data_cb of src/main.c. Each
    dumped flow arrives as a RawFlow holding the attribute values the
    callback reads (the netlink decoding and inet_ntop are not modelled);
    supported flows become Connection records appended to the current list. */
module Ingest {
  import opened Types

  /** The attributes data_cb reads from one conntrack entry. Addresses are
      already in inet_ntop text form; ports are the values stored in
      local.sport/local.dport. */
  datatype RawFlow = RawFlow(
    l3: int,          // ATTR_L3PROTO (uint8)
    l4: int,          // ATTR_L4PROTO (uint8)
    tcpState: int,    // ATTR_TCP_STATE (uint8)
    id: int,          // ATTR_ID (uint32)
    start: int,       // ATTR_TIMESTAMP_START, nanoseconds (uint64)
    stop: int,        // ATTR_TIMESTAMP_STOP, read like the start stamp, 0 while the flow lives (uint64)
    bytesOrig: int,   // ATTR_ORIG_COUNTER_BYTES (uint64)
    bytesRepl: int,   // ATTR_REPL_COUNTER_BYTES (uint64)
    origSrc: string,
    origDst: string,
    replSrc: string,
    replDst: string,
    sport: int,       // uint16_t
    dport: int,       // uint16_t
    status: bv32)     // ATTR_STATUS

  /** The attribute values lie in the ranges of their C types. */
  predicate InRange(raw: RawFlow)
  {
    0 <= raw.l3 < 256 && 0 <= raw.l4 < 256 && 0 <= raw.tcpState < 256 &&
    0 <= raw.id < TWO32 && 0 <= raw.start < TWO64 && 0 <= raw.stop < TWO64 &&
    0 <= raw.bytesOrig < TWO64 && 0 <= raw.bytesRepl < TWO64 &&
    0 <= raw.sport < 0x1_0000 && 0 <= raw.dport < 0x1_0000
  }

  /** The flows data_cb keeps: IPv4 or IPv6, carrying TCP, UDP, ICMP,
      ICMPv6 or IGMP. */
  predicate Supported(raw: RawFlow)
  {
    (raw.l3 == AF_INET || raw.l3 == AF_INET6) &&
    raw.l4 in {IPPROTO_TCP, IPPROTO_UDP, IPPROTO_ICMP, IPPROTO_ICMPV6, IPPROTO_IGMP}
  }

  /** Seconds the flow has existed, as data_cb computes them: with no start
      timestamp the update interval stands in; otherwise the stop value (the
      current time `now` in seconds when the stop stamp is 0) minus the start
      stamp converted from nanoseconds to seconds, all in time_t arithmetic.
      A non-zero stop stamp is used as it is, without that conversion. */
  function Elapsed(raw: RawFlow, now: int, interval: int): (d: int)
    requires InRange(raw) && -TWO63 <= now < TWO63 && -TWO31 <= interval < TWO31
    ensures -TWO63 <= d < TWO63
    ensures raw.start == 0 ==> d == interval
    ensures 0 < raw.start < TWO63 && raw.stop == 0 && 0 <= now ==> d == now - raw.start / NSEC_PER_SEC
    ensures 0 < raw.start < TWO63 && 0 < raw.stop < TWO63 ==> d == raw.stop - raw.start / NSEC_PER_SEC
  {
    var start := I64(raw.start);
    var stop := if raw.stop == 0 then now else I64(raw.stop);
    if start == 0 then interval else I64(stop - CDiv(start, NSEC_PER_SEC))
  }

  /** A live flow that started k seconds (plus a fraction) before `now`
      has an elapsed time of exactly k. */
  lemma ElapsedOfLiveFlow(raw: RawFlow, now: int, interval: int, k: int, frac: int)
    requires InRange(raw) && 0 <= now < TWO63 && -TWO31 <= interval < TWO31
    requires raw.stop == 0 && 0 <= k < now && 0 <= frac < NSEC_PER_SEC
    requires raw.start == (now - k) * NSEC_PER_SEC + frac && raw.start < TWO63
    ensures Elapsed(raw, now, interval) == k
  {
    assert I64(raw.start) == raw.start;
    assert raw.start > 0;
    assert raw.start / NSEC_PER_SEC == now - k;
  }

  /** A flow whose stop stamp is set, started at second 1000 and stopped
      one second later, both stamps in nanoseconds: the age is the stop
      stamp minus the start in seconds, not one second. */
  lemma EndedFlowMixesUnits(raw: RawFlow, now: int, interval: int)
    requires InRange(raw) && -TWO63 <= now < TWO63 && -TWO31 <= interval < TWO31
    requires raw.start == 1000 * NSEC_PER_SEC && raw.stop == 1001 * NSEC_PER_SEC
    ensures Elapsed(raw, now, interval) == 1001 * NSEC_PER_SEC - 1000
    ensures Elapsed(raw, now, interval) != 1
  {
  }

  /** The connection data_cb appends for a supported flow. */
  function Derive(raw: RawFlow, now: int, interval: int): (c: Connection)
    requires InRange(raw) && -TWO63 <= now < TWO63 && -TWO31 <= interval < TWO31
    ensures c.id == raw.id && c.l3 == raw.l3 && c.l4 == raw.l4 && c.status == raw.status
    ensures c.bytesOrig == raw.bytesOrig && c.bytesRepl == raw.bytesRepl
    ensures c.bytesSum < TWO64
    ensures raw.bytesOrig + raw.bytesRepl < TWO64 ==> c.bytesSum == raw.bytesOrig + raw.bytesRepl
    ensures c.isDstNat <==> raw.status & IPS_DST_NAT != 0
    ensures c.isSrcNat <==> raw.status & IPS_SRC_NAT != 0
    ensures c.statusL4 == if raw.l4 == IPPROTO_TCP then raw.tcpState else 0
    ensures c.delta == Elapsed(raw, now, interval)
    ensures c.timeStart == I64(raw.start)
    ensures raw.start == 0 ==> c.delta == interval && c.timeStart == 0
    ensures raw.start != 0 ==> c.timeStart != 0
    ensures c.local.sport == raw.sport && c.local.dport == raw.dport
    ensures c.remote.sport == 0 && c.remote.dport == 0
    ensures c.bpsRx == 0 && c.bpsTx == 0 && c.bpsSum == 0
    ensures c.local.src == raw.origSrc && c.local.dst == raw.origDst
    ensures c.remote.src == raw.replSrc && c.remote.dst == raw.replDst
    ensures c.local.hostnameSrc == [] && c.local.hostnameDst == []
    ensures c.netIn == ZeroInterface && c.netOut == ZeroInterface && c.statusStr.None?
  {
    Connection(
      raw.id, ZeroInterface, ZeroInterface, None,
      raw.bytesOrig, raw.bytesRepl, U64(raw.bytesOrig + raw.bytesRepl),
      0, 0, 0,
      Elapsed(raw, now, interval), I64(raw.start),
      raw.l3, raw.l4,
      Network(raw.origSrc, raw.sport, raw.origDst, raw.dport, [], []),
      Network(raw.replSrc, 0, raw.replDst, 0, [], []),
      raw.status,
      if raw.l4 == IPPROTO_TCP then raw.tcpState else 0,
      raw.status & IPS_SRC_NAT == IPS_SRC_NAT,
      raw.status & IPS_DST_NAT == IPS_DST_NAT)
  }

  /** The records a dump appends, in order. */
  function Kept(raws: seq<RawFlow>, now: int, interval: int): (r: seq<Connection>)
    requires forall i :: 0 <= i < |raws| ==> InRange(raws[i])
    requires -TWO63 <= now < TWO63 && -TWO31 <= interval < TWO31
    ensures |r| <= |raws|
    ensures forall c :: c in r ==>
      (c.l3 == AF_INET || c.l3 == AF_INET6) &&
      c.l4 in {IPPROTO_TCP, IPPROTO_UDP, IPPROTO_ICMP, IPPROTO_ICMPV6, IPPROTO_IGMP}
    decreases |raws|
  {
    if raws == [] then []
    else
      var p := raws[..|raws| - 1];
      var last := raws[|raws| - 1];
      Kept(p, now, interval) + (if Supported(last) then [Derive(last, now, interval)] else [])
  }

  /** No supported flow is dropped: the record of every supported flow of
      the dump is in the list. */
  lemma {:induction false} KeptComplete(raws: seq<RawFlow>, now: int, interval: int)
    requires forall i :: 0 <= i < |raws| ==> InRange(raws[i])
    requires -TWO63 <= now < TWO63 && -TWO31 <= interval < TWO31
    ensures forall i :: 0 <= i < |raws| && Supported(raws[i]) ==> Derive(raws[i], now, interval) in Kept(raws, now, interval)
    decreases |raws|
  {
    if raws != [] {
      var p := raws[..|raws| - 1];
      var last := raws[|raws| - 1];
      KeptComplete(p, now, interval);
      var k := Kept(raws, now, interval);
      var kp := Kept(p, now, interval);
      assert k == kp + (if Supported(last) then [Derive(last, now, interval)] else []);
      forall i | 0 <= i < |raws| && Supported(raws[i]) ensures Derive(raws[i], now, interval) in k {
        if i < |p| {
          assert raws[i] == p[i];
          assert Derive(p[i], now, interval) in kp;
        }
      }
    }
  }

  /** A dump of supported flows only yields one record per flow, in
      order. */
  lemma {:induction false} KeptAll(raws: seq<RawFlow>, now: int, interval: int)
    requires forall i :: 0 <= i < |raws| ==> InRange(raws[i])
    requires -TWO63 <= now < TWO63 && -TWO31 <= interval < TWO31
    ensures (forall i :: 0 <= i < |raws| ==> Supported(raws[i])) ==>
      |Kept(raws, now, interval)| == |raws|
      && forall i :: 0 <= i < |raws| ==> Kept(raws, now, interval)[i] == Derive(raws[i], now, interval)
    decreases |raws|
  {
    if raws != [] && forall i :: 0 <= i < |raws| ==> Supported(raws[i]) {
      var p := raws[..|raws| - 1];
      var last := raws[|raws| - 1];
      assert forall i :: 0 <= i < |p| ==> p[i] == raws[i];
      KeptAll(p, now, interval);
      var kp := Kept(p, now, interval);
      assert Supported(last);
      var k := Kept(raws, now, interval);
      assert k == kp + [Derive(last, now, interval)];
      forall i | 0 <= i < |raws| ensures k[i] == Derive(raws[i], now, interval) {
        if i < |p| {
          assert k[i] == kp[i] && raws[i] == p[i];
        }
      }
    }
  }

  /** Does the dump hold a kept flow without a start time? */
  predicate LacksStartTime(raws: seq<RawFlow>)
  {
    exists i :: 0 <= i < |raws| && Supported(raws[i]) && raws[i].start == 0
  }

  /** One more flow adds to LacksStartTime exactly its own case. */
  lemma LacksStartTimeStep(raws: seq<RawFlow>, n: nat)
    requires n < |raws|
    ensures LacksStartTime(raws[..n + 1])
      <==> LacksStartTime(raws[..n]) || (Supported(raws[n]) && raws[n].start == 0)
  {
    var p := raws[..n + 1];
    if Supported(raws[n]) && raws[n].start == 0 {
      assert Supported(p[n]) && p[n].start == 0;
    }
    if LacksStartTime(raws[..n]) {
      var i :| 0 <= i < n && Supported(raws[..n][i]) && raws[..n][i].start == 0;
      assert Supported(p[i]) && p[i].start == 0;
    }
    if LacksStartTime(p) {
      var i :| 0 <= i < n + 1 && Supported(p[i]) && p[i].start == 0;
      if i < n {
        assert Supported(raws[..n][i]) && raws[..n][i].start == 0;
      }
    }
  }

  /** The callback's state: NFTOP_CT_COUNT, NFTOP_FLAGS_TIMESTAMP, the
      option it clears (NFTOP_U_DISPLAY_AGE, inside `cfg`) and the current
      list, which starts with the zeroed head node main allocates. */
  class Collector {
    var count: int
    var timestamps: bool
    var cfg: Config
    var conns: seq<Connection>

    constructor (cfg0: Config)
      ensures count == 0 && timestamps && cfg == cfg0 && conns == [ZeroConnection]
    {
      count := 0;
      timestamps := true;
      cfg := cfg0;
      conns := [ZeroConnection];
    }

    /** data_cb for one flow. The flow is counted before it is checked, so
        discarded flows are counted too. */
    method DataCb(raw: RawFlow, now: int)
      requires InRange(raw) && -TWO63 <= now < TWO63 && -TWO31 <= cfg.interval < TWO31
      modifies this
      ensures count == old(count) + 1
      ensures Supported(raw) ==> conns == old(conns) + [Derive(raw, now, old(cfg).interval)]
      ensures !Supported(raw) ==> conns == old(conns)
      ensures timestamps == (old(timestamps) && !(Supported(raw) && raw.start == 0))
      ensures cfg == if Supported(raw) && raw.start == 0 then old(cfg).(displayAge := 0) else old(cfg)
    {
      count := count + 1;
      if raw.l3 != AF_INET && raw.l3 != AF_INET6 {
        return;
      }
      if !(raw.l4 == IPPROTO_TCP || raw.l4 == IPPROTO_UDP || raw.l4 == IPPROTO_ICMP ||
           raw.l4 == IPPROTO_ICMPV6 || raw.l4 == IPPROTO_IGMP) {
        return;
      }
      if raw.start == 0 {
        NoStartTime();
      }
      var c := Derive(raw, now, cfg.interval);
      conns := conns + [c];
    }

    /** A flow without a start time: no age column and no timestamps. */
    method NoStartTime()
      modifies this
      ensures cfg == old(cfg).(displayAge := 0) && !timestamps
      ensures count == old(count) && conns == old(conns)
    {
      timestamps := false;
      cfg := cfg.(displayAge := 0);
    }

    /** One dump: the callback runs once per flow, in order. A single kept
        flow without a start time turns the timestamps and the age column
        off for good. */
    method Dump(raws: seq<RawFlow>, now: int)
      requires forall i :: 0 <= i < |raws| ==> InRange(raws[i])
      requires -TWO63 <= now < TWO63 && -TWO31 <= cfg.interval < TWO31
      modifies this
      ensures count == old(count) + |raws|
      ensures conns == old(conns) + Kept(raws, now, old(cfg).interval)
      ensures timestamps == (old(timestamps) && !LacksStartTime(raws))
      ensures cfg == if LacksStartTime(raws) then old(cfg).(displayAge := 0) else old(cfg)
    {
      for n := 0 to |raws|
        invariant count == old(count) + n
        invariant conns == old(conns) + Kept(raws[..n], now, old(cfg).interval)
        invariant timestamps == (old(timestamps) && !LacksStartTime(raws[..n]))
        invariant cfg == if LacksStartTime(raws[..n]) then old(cfg).(displayAge := 0) else old(cfg)
      {
        DumpStep(raws, n, now, old(count), old(conns), old(timestamps), old(cfg));
      }
      assert raws[..|raws|] == raws;
    }

    /** One turn of the dump: the callback on flow n extends what the
        first n flows left. */
    method DumpStep(raws: seq<RawFlow>, n: nat, now: int,
                    ghost count0: int, ghost conns0: seq<Connection>, ghost ts0: bool, ghost cfg0: Config)
      requires n < |raws| && forall i :: 0 <= i < |raws| ==> InRange(raws[i])
      requires -TWO63 <= now < TWO63 && -TWO31 <= cfg0.interval < TWO31
      requires count == count0 + n
      requires conns == conns0 + Kept(raws[..n], now, cfg0.interval)
      requires timestamps == (ts0 && !LacksStartTime(raws[..n]))
      requires cfg == if LacksStartTime(raws[..n]) then cfg0.(displayAge := 0) else cfg0
      modifies this
      ensures count == count0 + n + 1
      ensures conns == conns0 + Kept(raws[..n + 1], now, cfg0.interval)
      ensures timestamps == (ts0 && !LacksStartTime(raws[..n + 1]))
      ensures cfg == if LacksStartTime(raws[..n + 1]) then cfg0.(displayAge := 0) else cfg0
    {
      assert raws[..n + 1][..n] == raws[..n];
      LacksStartTimeStep(raws, n);
      assert cfg.interval == cfg0.interval;
      DataCb(raws[n], now);
    }
  }
}
