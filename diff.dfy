/** Snapshot diff of the main loop of src/main.c: each connection of the
    current dump is matched against the previous cycle's list, and byte
    counter deltas become bit rates. */
module Diff {
  import opened Types

  /** A history entry is the same flow when both the conntrack id and the
      start timestamp agree (ids are reused). */
  predicate SameFlow(c: Connection, h: Connection)
  {
    c.id == h.id && c.timeStart == h.timeStart
  }

  /** Position of the first history entry that is the same flow. */
  function FirstMatch(hist: seq<Connection>, c: Connection): (r: Option<nat>)
    ensures r.Some? ==> r.value < |hist| && SameFlow(c, hist[r.value])
    ensures r.Some? ==> forall j :: 0 <= j < r.value ==> !SameFlow(c, hist[j])
    ensures r.None? <==> forall j :: 0 <= j < |hist| ==> !SameFlow(c, hist[j])
    decreases |hist|
  {
    if hist == [] then None
    else if SameFlow(c, hist[0]) then Some(0)
    else
      match FirstMatch(hist[1..], c)
      case None =>
        assert forall j :: 1 <= j < |hist| ==> hist[j] == hist[1..][j - 1];
        None
      case Some(k) =>
        assert forall j :: 1 <= j < |hist| ==> hist[j] == hist[1..][j - 1];
        Some(k + 1)
  }

  /** The inner walk over the history list. */
  method FindHistory(hist: seq<Connection>, c: Connection) returns (r: Option<nat>)
    ensures r == FirstMatch(hist, c)
  {
    var j := 0;
    while j < |hist|
      invariant 0 <= j <= |hist|
      invariant forall k :: 0 <= k < j ==> !SameFlow(c, hist[k])
    {
      if c.id == hist[j].id && c.timeStart == hist[j].timeStart {
        return Some(j);
      }
      j := j + 1;
    }
    return None;
  }

  /** delta_delta (uint32_t): the growth of the flow's age since the last
      cycle when the age is known and has changed, else the update
      interval. */
  function Pace(c: Connection, h: Connection, interval: int): (dd: nat)
    ensures dd < TWO32
    ensures c.delta > 0 && c.delta != h.delta && 0 < c.delta - h.delta < TWO32 ==> dd == c.delta - h.delta
    ensures !(c.delta > 0 && c.delta != h.delta) && 0 <= interval < TWO32 ==> dd == interval
  {
    if c.delta > 0 && c.delta != h.delta then U32(c.delta - h.delta) else U32(interval)
  }

  /** One rate: the uint64_t counter difference divided by the elapsed
      seconds, times 8, stored into an int64_t. */
  function Rate(diff: nat, dd: nat): int
    requires dd > 0
  {
    I64(U64((diff / dd) * 8))
  }

  lemma DivBounds(d: nat, dd: nat)
    requires dd > 0
    ensures 0 <= d / dd <= d
    ensures (d / dd) * dd <= d < (d / dd + 1) * dd
  {
    var q := d / dd;
    var m := d % dd;
    assert d == q * dd + m && 0 <= m < dd;
    assert q >= 0;
    assert (q + 1) * dd == q * dd + dd;
    assert q * dd == q * (dd - 1) + q;
    MulNonneg(q, dd - 1);
  }

  lemma MulNonneg(a: int, b: int)
    requires a >= 0 && b >= 0
    ensures a * b >= 0
  {
  }

  lemma ScaleBy8(q: int, dd: int)
    ensures (q * 8) * dd == 8 * (q * dd)
    ensures (q * 8 + 8) * dd == 8 * ((q + 1) * dd)
  {
  }

  /** For a counter that grew by less than 2^60 bytes the rate is the bits
      per second, rounded down to whole bytes per second. */
  lemma RateIsBitsPerSecond(cur: int, prev: int, dd: nat)
    requires dd > 0 && 0 <= prev <= cur && cur - prev < 0x1000_0000_0000_0000
    ensures var r := Rate(U64(cur - prev), dd);
      && r == ((cur - prev) / dd) * 8
      && r >= 0 && r % 8 == 0
      && r * dd <= 8 * (cur - prev) < (r + 8) * dd
  {
    var d := cur - prev;
    DivBounds(d, dd);
    var q := d / dd;
    assert U64(d) == d;
    assert 0 <= q * 8 < TWO63;
    assert U64(q * 8) == q * 8;
    assert I64(q * 8) == q * 8;
    ScaleBy8(q, dd);
  }

  /** A counter that went backwards still passes the unsigned `> 0` guard:
      a drop of one byte over one second is shown as -8 bits per second. */
  lemma BackwardCounterRate()
    ensures U64(9 - 10) != 0
    ensures Rate(U64(9 - 10), 1) == -8
  {
    assert U64(9 - 10) == TWO64 - 1;
    assert U64((TWO64 - 1) * 8) == TWO64 - 8;
  }

  /** The receive and transmit rates after the two counter checks, in the
      order the main loop makes them: the reply counter first, then the
      original counter. */
  function Rates(c: Connection, h: Connection, dd: nat, isLocal: bool): (int, int)
    requires dd > 0
  {
    var dRepl := U64(c.bytesRepl - h.bytesRepl);
    var dOrig := U64(c.bytesOrig - h.bytesOrig);
    var tx1 := if dRepl != 0 && isLocal then Rate(dRepl, dd) else c.bpsTx;
    var rx1 := if dRepl != 0 && !isLocal then Rate(dRepl, dd) else c.bpsRx;
    var rx2 := if dOrig != 0 && isLocal then Rate(dOrig, dd) else rx1;
    var tx2 := if dOrig != 0 && !isLocal then Rate(dOrig, dd) else tx1;
    (rx2, tx2)
  }

  /** The update of one current connection from its matched history entry:
      rates when the pace is non-zero, then the hostnames the entry had
      already resolved. `isLocal` is isLocalAddress(local.dst). With a
      local destination the reply direction is transmit and the original
      direction receive; otherwise the other way round. A counter that did
      not change leaves the corresponding rate as it was. */
  function DiffOne(c: Connection, h: Connection, interval: int, isLocal: bool): (r: Connection)
    ensures r.(bpsRx := c.bpsRx, bpsTx := c.bpsTx, bpsSum := c.bpsSum, local := c.local) == c
    ensures r.local.(hostnameSrc := c.local.hostnameSrc, hostnameDst := c.local.hostnameDst) == c.local
    ensures r.local.hostnameSrc == if h.local.hostnameSrc != [] then h.local.hostnameSrc else c.local.hostnameSrc
    ensures r.local.hostnameDst == if h.local.hostnameDst != [] then h.local.hostnameDst else c.local.hostnameDst
    ensures Pace(c, h, interval) == 0 ==> r.bpsRx == c.bpsRx && r.bpsTx == c.bpsTx && r.bpsSum == c.bpsSum
    ensures Pace(c, h, interval) != 0 ==> r.bpsSum == I64(r.bpsRx + r.bpsTx)
  {
    var dd := Pace(c, h, interval);
    var c1 :=
      if dd == 0 then c
      else
        var (rx, tx) := Rates(c, h, dd, isLocal);
        c.(bpsRx := rx, bpsTx := tx, bpsSum := I64(rx + tx));
    var hs := if |h.local.hostnameSrc| > 0 then h.local.hostnameSrc else c1.local.hostnameSrc;
    var hd := if |h.local.hostnameDst| > 0 then h.local.hostnameDst else c1.local.hostnameDst;
    c1.(local := c1.local.(hostnameSrc := hs, hostnameDst := hd))
  }

  /** Direction of the rates for a fresh record (all rates 0): the reply
      counter drives transmit and the original counter receive exactly when
      the destination is local, and a rate is non-zero only if its counter
      changed. Their sum is the total rate. */
  lemma RateDirection(c: Connection, h: Connection, interval: int, isLocal: bool)
    requires c.bpsRx == 0 && c.bpsTx == 0 && c.bpsSum == 0
    requires Pace(c, h, interval) != 0
    requires 0 <= c.bytesRepl < TWO64 && 0 <= c.bytesOrig < TWO64 && 0 <= h.bytesRepl < TWO64 && 0 <= h.bytesOrig < TWO64
    ensures var r := DiffOne(c, h, interval, isLocal);
      var dd := Pace(c, h, interval);
      var repl := if c.bytesRepl != h.bytesRepl then Rate(U64(c.bytesRepl - h.bytesRepl), dd) else 0;
      var orig := if c.bytesOrig != h.bytesOrig then Rate(U64(c.bytesOrig - h.bytesOrig), dd) else 0;
      && r.bpsTx == (if isLocal then repl else orig)
      && r.bpsRx == (if isLocal then orig else repl)
      && r.bpsSum == I64(repl + orig)
  {
    var dd := Pace(c, h, interval);
    var (rx, tx) := Rates(c, h, dd, isLocal);
    var r := DiffOne(c, h, interval, isLocal);
    assert r.bpsRx == rx && r.bpsTx == tx && r.bpsSum == I64(rx + tx);
    CounterMoved(c.bytesRepl, h.bytesRepl);
    CounterMoved(c.bytesOrig, h.bytesOrig);
  }

  /** The unsigned difference of two counters is zero only when they are equal. */
  lemma CounterMoved(cur: int, prev: int)
    requires 0 <= cur < TWO64 && 0 <= prev < TWO64
    ensures U64(cur - prev) == 0 <==> cur == prev
  {
    if cur < prev {
      assert U64(cur - prev) == cur - prev + TWO64;
    }
  }

  /** 256000 more reply bytes over 2 seconds to a local destination are
      1024000 bits per second of transmit and nothing received. */
  lemma DiffExample(c: Connection, h: Connection)
    requires SameFlow(c, h) && c.bpsRx == 0 && c.bpsTx == 0 && c.bpsSum == 0
    requires h.bytesRepl == 1_000_000 && c.bytesRepl == 1_256_000
    requires h.bytesOrig == c.bytesOrig
    requires h.delta == 10 && c.delta == 12
    ensures var r := DiffOne(c, h, 2, true);
      r.bpsTx == 1_024_000 && r.bpsRx == 0 && r.bpsSum == 1_024_000
  {
    assert Pace(c, h, 2) == 2;
    assert U64(c.bytesRepl - h.bytesRepl) == 256_000;
    assert U64(c.bytesOrig - h.bytesOrig) == 0;
    assert Rate(256_000, 2) == 1_024_000;
  }
}
