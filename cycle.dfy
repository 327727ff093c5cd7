/** One refresh cycle of the main loop of src/main.c: every connection of
    the current dump is diffed against the previous cycle's list, gated,
    resolved to its interfaces, filtered, given hostnames, and copied into
    the display list; then the display list (or, in device-only mode, the
    interface list) is sorted. */
module Cycle {
  import opened Types
  import opened Directory
  import opened DnsCache
  import opened Diff
  import opened Resolve
  import opened Sorting

  /** What the cycle reads from outside the lists: inet_pton, getnameinfo
      and the hostname width NFTOP_MAX_HOSTNAME that the last header
      drawing left. `resolve` may be any resolver; the one addr2host
      actually builds is DnsCache.SourceResolver, which never names an
      IPv6 address (DnsCache.IPv6NeverNamed). */
  datatype Env = Env(
    pton: (int, string) -> Bytes16,
    resolve: (int, string) -> Option<string>,
    maxHostname: nat)

  /** Everything the connection loop changes besides the current list: the
      interface list, the display list with its length counter array_pos,
      NFTOP_TX_ALL / NFTOP_RX_ALL and the DNS cache. */
  datatype Tally = Tally(
    devs: seq<Interface>,
    display: seq<Connection>,
    pos: nat,
    txAll: nat,
    rxAll: nat,
    ring: Ring)

  /** The connection after the history walk: diffed against its first
      match, unchanged when it has none. */
  function Diffed(devs: seq<Interface>, c: Connection, hist: seq<Connection>, cfg: Config): Connection
  {
    match FirstMatch(hist, c)
    case None => c
    case Some(k) => DiffOne(c, hist[k], cfg.interval, IsLocalAddress(c.local.dst, devs))
  }

  /** addr2host is called when DNS is on and a hostname is shorter than two
      characters. */
  predicate WantsDns(cfg: Config, c: Connection)
  {
    cfg.dns && (|c.local.hostnameSrc| < 2 || |c.local.hostnameDst| < 2)
  }

  /** The body of the gate for one connection: interface resolution and
      crediting, the filter decision, addr2host when wanted, and the copy
      into the display list with the totals when the filter admits it. */
  function Admit(st: Tally, c: Connection, cfg: Config, env: Env): (r: (Tally, Connection))
    requires RingValid(st.ring)
    ensures RingValid(r.0.ring)
  {
    var (devs2, c2) := ResolveSpec(st.devs, c, env.pton);
    var (ring3, c3) :=
      if WantsDns(cfg, c2) then AddrToHostSpec(st.ring, c2, cfg, env.resolve, env.maxHostname)
      else (st.ring, c2);
    if Passes(cfg, c2) then
      (Tally(devs2, AddCt(st.display, c3), st.pos + 1,
             U64(st.txAll + c3.bpsTx), U64(st.rxAll + c3.bpsRx), ring3), c3)
    else
      (st.(devs := devs2, ring := ring3), c3)
  }

  /** Admit once its two stages are known: the tally it leaves when the
      connection is shown and when it is not. */
  lemma AdmitCases(st: Tally, c: Connection, cfg: Config, env: Env,
                   devs2: seq<Interface>, c2: Connection, ring3: Ring, c3: Connection)
    requires RingValid(st.ring)
    requires (devs2, c2) == ResolveSpec(st.devs, c, env.pton)
    requires (ring3, c3) == if WantsDns(cfg, c2) then AddrToHostSpec(st.ring, c2, cfg, env.resolve, env.maxHostname)
                            else (st.ring, c2)
    ensures Passes(cfg, c2) ==>
      Admit(st, c, cfg, env) == (Tally(devs2, AddCt(st.display, c3), st.pos + 1,
                                       U64(st.txAll + c3.bpsTx), U64(st.rxAll + c3.bpsRx), ring3), c3)
    ensures !Passes(cfg, c2) ==> Admit(st, c, cfg, env) == (st.(devs := devs2, ring := ring3), c3)
  {
  }

  /** The loop body for one connection. Once array_pos reaches
      NFTOP_DISPLAY_COUNT the loop breaks, which is the same as leaving
      every later connection and the tally alone. */
  function Step(st: Tally, c: Connection, hist: seq<Connection>, cfg: Config, env: Env): (r: (Tally, Connection))
    requires RingValid(st.ring)
    ensures RingValid(r.0.ring)
  {
    if st.pos >= DISPLAY_COUNT then (st, c)
    else
      var c1 := Diffed(st.devs, c, hist, cfg);
      if !Gate(cfg, c1) then (st, c1) else Admit(st, c1, cfg, env)
  }

  /** The loop over the current list, in list order. */
  function Run(st: Tally, cur: seq<Connection>, hist: seq<Connection>, cfg: Config, env: Env)
    : (r: (Tally, seq<Connection>))
    requires RingValid(st.ring)
    ensures RingValid(r.0.ring) && |r.1| == |cur|
    decreases |cur|
  {
    if cur == [] then (st, [])
    else
      var (st1, done) := Run(st, cur[..|cur| - 1], hist, cfg, env);
      var (st2, c) := Step(st1, cur[|cur| - 1], hist, cfg, env);
      (st2, done + [c])
  }

  /** The whole cycle up to the drawing: the loop runs only when there is a
      previous list; then the display list is sorted when a sort field is
      set outside device-only mode, and in device-only mode the interfaces
      are sorted, each with its addresses. */
  function CycleSpec(devs0: seq<Interface>, txAll: nat, rxAll: nat, ring: Ring, cur: seq<Connection>,
                     history: Option<seq<Connection>>, cfg: Config, env: Env): (r: (Tally, seq<Connection>))
    requires RingValid(ring)
    ensures RingValid(r.0.ring)
  {
    var st0 := Tally(devs0, [ZeroConnection], 0, txAll, rxAll, ring);
    var (st1, cur1) := if history.Some? then Run(st0, cur, history.value, cfg, env) else (st0, cur);
    var display := if cfg.sortField != SortNone && !cfg.devOnly then InsertionSort(st1.display, ConnectionOrder(cfg))
                   else st1.display;
    var devs := if cfg.devOnly then InsertionSort(WithSortedAddresses(st1.devs), InterfaceOrder(cfg)) else st1.devs;
    (st1.(display := display, devs := devs), cur1)
  }

  // ---------------------------------------------------------------------
  // Properties of the loop

  /** The shape of the display list the loop maintains: the zeroed head
      node first, then array_pos copies, never more than
      NFTOP_DISPLAY_COUNT, each of a connection that passed the gate and
      the filter. */
  ghost predicate DisplayValid(cfg: Config, st: Tally)
  {
    && |st.display| >= 1 && st.display[0] == ZeroConnection
    && st.pos == |st.display| - 1 && st.pos <= DISPLAY_COUNT
    && forall k :: 1 <= k < |st.display| ==> Gate(cfg, st.display[k]) && Passes(cfg, st.display[k])
  }

  /** Behind the gate a connection changes only in its interface copies
      and its local hostnames. */
  lemma AdmitKeepsFlow(st: Tally, c: Connection, cfg: Config, env: Env)
    requires RingValid(st.ring)
    ensures var c' := Admit(st, c, cfg, env).1;
      && c'.(netIn := c.netIn, netOut := c.netOut, local := c.local) == c
      && c'.local.(hostnameSrc := c.local.hostnameSrc, hostnameDst := c.local.hostnameDst) == c.local
      && c'.netIn == ResolveSpec(st.devs, c, env.pton).1.netIn
  {
    ResolveConnection(st.devs, c, env.pton);
  }

  /** Behind the gate the display list is left alone, or the updated
      connection, which passed the filter, is appended and its rates added
      to the totals modulo 2^64; it is appended exactly when it passes the
      filter, and the gate answers for it as for the connection before. */
  lemma AdmitShape(st: Tally, c: Connection, cfg: Config, env: Env)
    requires RingValid(st.ring)
    ensures var (st', c') := Admit(st, c, cfg, env);
      || (st'.display == st.display && st'.pos == st.pos && st'.txAll == st.txAll && st'.rxAll == st.rxAll)
      || (&& st'.display == st.display + [c'] && st'.pos == st.pos + 1
          && st'.txAll == U64(st.txAll + c'.bpsTx) && st'.rxAll == U64(st.rxAll + c'.bpsRx)
          && Passes(cfg, c'))
    ensures var (st', c') := Admit(st, c, cfg, env);
      && (st'.display == st.display + [c'] <==> Passes(cfg, c'))
      && (Gate(cfg, c') <==> Gate(cfg, c))
  {
    AdmitKeepsFlow(st, c, cfg, env);
    var (devs2, c2) := ResolveSpec(st.devs, c, env.pton);
    var (ring3, c3) :=
      if WantsDns(cfg, c2) then AddrToHostSpec(st.ring, c2, cfg, env.resolve, env.maxHostname)
      else (st.ring, c2);
    assert c3.netIn == c2.netIn && c3.netOut == c2.netOut;
    assert Passes(cfg, c3) == Passes(cfg, c2);
    AdmitCases(st, c, cfg, env, devs2, c2, ring3, c3);
  }

  /** One step either leaves the display list and the totals alone, or,
      below the cap, appends the updated connection, which passed the gate
      and the filter, and adds its rates to the totals modulo 2^64; it
      appends exactly when the cap is not reached and the updated
      connection passes both tests. */
  lemma StepShape(st: Tally, c: Connection, hist: seq<Connection>, cfg: Config, env: Env)
    requires RingValid(st.ring)
    ensures var (st', c') := Step(st, c, hist, cfg, env);
      || (st'.display == st.display && st'.pos == st.pos && st'.txAll == st.txAll && st'.rxAll == st.rxAll)
      || (&& st.pos < DISPLAY_COUNT
          && st'.display == st.display + [c'] && st'.pos == st.pos + 1
          && st'.txAll == U64(st.txAll + c'.bpsTx) && st'.rxAll == U64(st.rxAll + c'.bpsRx)
          && Gate(cfg, c') && Passes(cfg, c'))
    ensures var (st', c') := Step(st, c, hist, cfg, env);
      st'.display == st.display + [c'] <==> st.pos < DISPLAY_COUNT && Gate(cfg, c') && Passes(cfg, c')
  {
    if st.pos < DISPLAY_COUNT {
      var c1 := Diffed(st.devs, c, hist, cfg);
      if Gate(cfg, c1) {
        AdmitShape(st, c1, cfg, env);
        AdmitKeepsFlow(st, c1, cfg, env);
        assert Step(st, c, hist, cfg, env) == Admit(st, c1, cfg, env);
      }
    }
  }

  /** One step changes nothing of a connection but its rates, its
      interface copies and its hostnames. */
  lemma StepKeepsFlow(st: Tally, c: Connection, hist: seq<Connection>, cfg: Config, env: Env)
    requires RingValid(st.ring)
    ensures var c' := Step(st, c, hist, cfg, env).1;
      && c'.(bpsRx := c.bpsRx, bpsTx := c.bpsTx, bpsSum := c.bpsSum, netIn := c.netIn, netOut := c.netOut,
             local := c.local) == c
      && c'.local.(hostnameSrc := c.local.hostnameSrc, hostnameDst := c.local.hostnameDst) == c.local
  {
    if st.pos < DISPLAY_COUNT {
      var c1 := Diffed(st.devs, c, hist, cfg);
      if Gate(cfg, c1) {
        AdmitKeepsFlow(st, c1, cfg, env);
        assert Step(st, c, hist, cfg, env).1 == Admit(st, c1, cfg, env).1;
      }
    }
  }

  /** One step changes only the rates of the interface list. */
  lemma StepLayout(st: Tally, c: Connection, hist: seq<Connection>, cfg: Config, env: Env)
    requires RingValid(st.ring)
    ensures SameLayout(st.devs, Step(st, c, hist, cfg, env).0.devs)
  {
    if st.pos < DISPLAY_COUNT {
      var c1 := Diffed(st.devs, c, hist, cfg);
      if Gate(cfg, c1) {
        ResolveKeepsLayout(st.devs, c1, env.pton);
      }
    }
  }

  /** A flow that is not in the previous list and has no rate yet, as every
      new record has, is not shown while the threshold is positive. */
  lemma NewFlowHidden(st: Tally, c: Connection, hist: seq<Connection>, cfg: Config, env: Env)
    requires RingValid(st.ring)
    requires FirstMatch(hist, c).None? && c.bpsSum == 0 && cfg.thresh >= 1
    ensures Step(st, c, hist, cfg, env).0 == st
    ensures Step(st, c, hist, cfg, env).1 == c
  {
  }

  /** One more element of the current list is one more step of the loop. */
  lemma RunExtend(st: Tally, cur: seq<Connection>, i: nat, hist: seq<Connection>, cfg: Config, env: Env)
    requires RingValid(st.ring) && i < |cur|
    ensures var r := Run(st, cur[..i], hist, cfg, env);
      var s := Step(r.0, cur[i], hist, cfg, env);
      Run(st, cur[..i + 1], hist, cfg, env) == (s.0, r.1 + [s.1])
  {
    assert cur[..i + 1][..i] == cur[..i];
  }

  /** Once the display list is full the rest of the current list is left
      as it is. */
  lemma {:induction false} CappedRest(st: Tally, cur: seq<Connection>, i: nat, hist: seq<Connection>, cfg: Config, env: Env)
    requires RingValid(st.ring) && i <= |cur|
    requires Run(st, cur[..i], hist, cfg, env).0.pos >= DISPLAY_COUNT
    ensures Run(st, cur, hist, cfg, env)
      == (Run(st, cur[..i], hist, cfg, env).0, Run(st, cur[..i], hist, cfg, env).1 + cur[i..])
    decreases |cur|
  {
    if |cur| == i {
      assert cur[..i] == cur && cur[i..] == [];
      var pre := Run(st, cur, hist, cfg, env).1;
      assert pre + [] == pre;
    } else {
      var p := cur[..|cur| - 1];
      var x := cur[|cur| - 1];
      assert p[..i] == cur[..i];
      CappedRest(st, p, i, hist, cfg, env);
      var (st1, done) := Run(st, p, hist, cfg, env);
      var (sti, pre) := Run(st, cur[..i], hist, cfg, env);
      assert st1 == sti && done == pre + p[i..];
      assert Step(st1, x, hist, cfg, env) == (st1, x);
      assert Run(st, cur, hist, cfg, env) == (st1, done + [x]);
      assert cur[i..] == p[i..] + [x];
      assert done + [x] == pre + cur[i..];
    }
  }

  /** The loop keeps the display list's shape and only appends to it. */
  lemma {:induction false} RunDisplay(st: Tally, cur: seq<Connection>, hist: seq<Connection>, cfg: Config, env: Env)
    requires RingValid(st.ring)
    ensures var st' := Run(st, cur, hist, cfg, env).0;
      && st.display <= st'.display
      && (DisplayValid(cfg, st) ==> DisplayValid(cfg, st'))
    decreases |cur|
  {
    if cur != [] {
      var p := cur[..|cur| - 1];
      RunDisplay(st, p, hist, cfg, env);
      var st1 := Run(st, p, hist, cfg, env).0;
      StepShape(st1, cur[|cur| - 1], hist, cfg, env);
      var (st2, c) := Step(st1, cur[|cur| - 1], hist, cfg, env);
      assert Run(st, cur, hist, cfg, env).0 == st2;
      if DisplayValid(cfg, st) && st2.display != st1.display {
        forall k | 1 <= k < |st2.display| ensures Gate(cfg, st2.display[k]) && Passes(cfg, st2.display[k]) {
          if k < |st1.display| {
            assert st2.display[k] == st1.display[k];
          }
        }
      }
    }
  }

  /** The connections of a list that pass the gate and the filter, in
      list order. */
  function Matches(cfg: Config, s: seq<Connection>): (r: seq<Connection>)
    ensures |r| <= |s|
    ensures forall x :: x in r <==> x in s && Gate(cfg, x) && Passes(cfg, x)
    decreases |s|
  {
    if s == [] then []
    else
      var p := s[..|s| - 1];
      var x := s[|s| - 1];
      assert s == p + [x];
      Matches(cfg, p) + (if Gate(cfg, x) && Passes(cfg, x) then [x] else [])
  }

  /** The first n elements of s, or all of s when it is shorter. */
  function Capped(s: seq<Connection>, n: nat): seq<Connection>
  {
    if |s| <= n then s else s[..n]
  }

  /** The loop appends to the display list exactly the updated connections
      that pass the gate and the filter, in list order, up to the cap:
      none is left out while there is room, and none is added after. */
  lemma {:induction false} RunShowsAll(st: Tally, cur: seq<Connection>, hist: seq<Connection>, cfg: Config, env: Env)
    requires RingValid(st.ring) && st.pos <= DISPLAY_COUNT
    ensures var (st', cur') := Run(st, cur, hist, cfg, env);
      var shown := Capped(Matches(cfg, cur'), DISPLAY_COUNT - st.pos);
      st'.display == st.display + shown && st'.pos == st.pos + |shown|
    decreases |cur|
  {
    if cur != [] {
      var p := cur[..|cur| - 1];
      var x := cur[|cur| - 1];
      RunShowsAll(st, p, hist, cfg, env);
      var r1 := Run(st, p, hist, cfg, env);
      StepShows(r1.0, x, hist, cfg, env);
      var r2 := Step(r1.0, x, hist, cfg, env);
      assert Run(st, cur, hist, cfg, env) == (r2.0, r1.1 + [r2.1]);
      MatchesAppend(cfg, r1.1, r2.1);
      ShowsStep(cfg, st, r1.0, r2.0, Matches(cfg, r1.1), r2.1);
    }
  }

  /** One step appends the updated connection exactly when there is room
      and it passes both tests, and array_pos follows the list. */
  predicate ShowsExactly(cfg: Config, st1: Tally, st2: Tally, c: Connection)
  {
    && (st2.display == st1.display + [c] <==> st1.pos < DISPLAY_COUNT && Gate(cfg, c) && Passes(cfg, c))
    && ((st2.display == st1.display && st2.pos == st1.pos)
        || (st2.display == st1.display + [c] && st2.pos == st1.pos + 1))
  }

  lemma StepShows(st1: Tally, x: Connection, hist: seq<Connection>, cfg: Config, env: Env)
    requires RingValid(st1.ring)
    ensures ShowsExactly(cfg, st1, Step(st1, x, hist, cfg, env).0, Step(st1, x, hist, cfg, env).1)
  {
    StepShape(st1, x, hist, cfg, env);
  }

  /** RunShowsAll's inductive step over abstract tallies: m is what passed
      before the step, e what the step's connection adds to it. */
  lemma ShowsStep(cfg: Config, st: Tally, st1: Tally, st2: Tally, m: seq<Connection>, c: Connection)
    requires st.pos <= DISPLAY_COUNT
    requires st1.display == st.display + Capped(m, DISPLAY_COUNT - st.pos)
    requires st1.pos == st.pos + |Capped(m, DISPLAY_COUNT - st.pos)|
    requires ShowsExactly(cfg, st1, st2, c)
    ensures var e := if Gate(cfg, c) && Passes(cfg, c) then [c] else [];
      && st2.display == st.display + Capped(m + e, DISPLAY_COUNT - st.pos)
      && st2.pos == st.pos + |Capped(m + e, DISPLAY_COUNT - st.pos)|
  {
    var k := DISPLAY_COUNT - st.pos;
    var e := if Gate(cfg, c) && Passes(cfg, c) then [c] else [];
    CappedAppend(m, e, k);
    if |m| >= k {
      assert st2.display != st1.display + [c];
    } else if e == [c] {
      assert st.display + (m + e) == st.display + m + [c];
    } else {
      assert m + e == m;
    }
  }

  lemma MatchesAppend(cfg: Config, s: seq<Connection>, c: Connection)
    ensures Matches(cfg, s + [c]) == Matches(cfg, s) + (if Gate(cfg, c) && Passes(cfg, c) then [c] else [])
  {
    assert (s + [c])[..|s|] == s;
  }

  /** Appending to a list that already fills the cap leaves the capped
      list as it was; below the cap the capped list is the whole list. */
  lemma CappedAppend(m: seq<Connection>, e: seq<Connection>, k: nat)
    ensures |m| >= k ==> Capped(m + e, k) == Capped(m, k) && |Capped(m, k)| == k
    ensures |m| < k && |e| <= 1 ==> Capped(m + e, k) == m + e && Capped(m, k) == m
  {
    if |m| >= k {
      assert (m + e)[..k] == m[..k];
    }
  }

  /** The loop changes only the rates of the interface list. */
  lemma {:induction false} RunLayout(st: Tally, cur: seq<Connection>, hist: seq<Connection>, cfg: Config, env: Env)
    requires RingValid(st.ring)
    ensures SameLayout(st.devs, Run(st, cur, hist, cfg, env).0.devs)
    decreases |cur|
  {
    if cur != [] {
      var p := cur[..|cur| - 1];
      RunLayout(st, p, hist, cfg, env);
      var st1 := Run(st, p, hist, cfg, env).0;
      StepLayout(st1, cur[|cur| - 1], hist, cfg, env);
      SameLayoutTrans(st.devs, st1.devs, Run(st, cur, hist, cfg, env).0.devs);
    }
  }

  /** Every connection keeps what identifies its flow and its counters, so
      the next cycle matches and diffs it as this one did. */
  lemma {:induction false} RunKeepsFlows(st: Tally, cur: seq<Connection>, hist: seq<Connection>, cfg: Config, env: Env)
    requires RingValid(st.ring)
    ensures var cur' := Run(st, cur, hist, cfg, env).1;
      forall i :: 0 <= i < |cur| ==>
        (cur'[i].id == cur[i].id && cur'[i].timeStart == cur[i].timeStart && cur'[i].delta == cur[i].delta
         && cur'[i].bytesOrig == cur[i].bytesOrig && cur'[i].bytesRepl == cur[i].bytesRepl)
    decreases |cur|
  {
    if cur != [] {
      var p := cur[..|cur| - 1];
      RunKeepsFlows(st, p, hist, cfg, env);
      var (st1, done) := Run(st, p, hist, cfg, env);
      StepKeepsFlow(st1, cur[|cur| - 1], hist, cfg, env);
      var cur' := Run(st, cur, hist, cfg, env).1;
      assert cur' == done + [Step(st1, cur[|cur| - 1], hist, cfg, env).1];
      forall i | 0 <= i < |p| ensures cur'[i] == done[i] && cur[i] == p[i] {
      }
    }
  }

  /** The sum of the transmit rates of a list. */
  function SumTx(s: seq<Connection>): int
    decreases |s|
  {
    if s == [] then 0 else SumTx(s[..|s| - 1]) + s[|s| - 1].bpsTx
  }

  /** The sum of the receive rates of a list. */
  function SumRx(s: seq<Connection>): int
    decreases |s|
  {
    if s == [] then 0 else SumRx(s[..|s| - 1]) + s[|s| - 1].bpsRx
  }

  lemma ModShift(x: int, q: int)
    ensures (q * TWO64 + x) % TWO64 == x % TWO64
  {
  }

  lemma U64Add(a: int, b: int)
    ensures U64(U64(a) + b) == U64(a + b)
  {
    var q := a / TWO64;
    assert a == q * TWO64 + U64(a);
    assert a + b == q * TWO64 + (U64(a) + b);
    ModShift(U64(a) + b, q);
  }

  /** Appending one connection to the counted part adds its rates to the
      totals, modulo 2^64. */
  lemma TotalsAppend(base: int, a: seq<Connection>, c: Connection, tx: int, rx: int)
    requires tx == U64(base + SumTx(a)) && rx == U64(base + SumRx(a))
    ensures U64(tx + c.bpsTx) == U64(base + SumTx(a + [c]))
    ensures U64(rx + c.bpsRx) == U64(base + SumRx(a + [c]))
  {
    assert (a + [c])[..|a + [c]| - 1] == a;
    U64Add(base + SumTx(a), c.bpsTx);
    U64Add(base + SumRx(a), c.bpsRx);
  }

  /** NFTOP_TX_ALL and NFTOP_RX_ALL grow by the rates of exactly the
      connections the loop appended to the display list, modulo 2^64
      (the totals start the cycle at 0). */
  lemma {:induction false} RunTotals(st: Tally, cur: seq<Connection>, hist: seq<Connection>, cfg: Config, env: Env)
    requires RingValid(st.ring) && st.txAll == 0 && st.rxAll == 0
    ensures var st' := Run(st, cur, hist, cfg, env).0;
      && st.display <= st'.display
      && st'.txAll == U64(SumTx(st'.display[|st.display|..]))
      && st'.rxAll == U64(SumRx(st'.display[|st.display|..]))
    decreases |cur|
  {
    var n := |st.display|;
    if cur == [] {
      assert st.display[n..] == [];
    } else {
      var p := cur[..|cur| - 1];
      var x := cur[|cur| - 1];
      RunTotals(st, p, hist, cfg, env);
      var st1 := Run(st, p, hist, cfg, env).0;
      StepTotals(st1, x, hist, cfg, env, n);
      assert Run(st, cur, hist, cfg, env).0 == Step(st1, x, hist, cfg, env).0;
    }
  }

  /** One loop step keeps the totals equal to the sums of the rates
      appended since position n. */
  lemma StepTotals(st1: Tally, x: Connection, hist: seq<Connection>, cfg: Config, env: Env, n: nat)
    requires RingValid(st1.ring) && n <= |st1.display|
    requires st1.txAll == U64(SumTx(st1.display[n..])) && st1.rxAll == U64(SumRx(st1.display[n..]))
    ensures var st2 := Step(st1, x, hist, cfg, env).0;
      && st1.display <= st2.display
      && st2.txAll == U64(SumTx(st2.display[n..]))
      && st2.rxAll == U64(SumRx(st2.display[n..]))
  {
    StepAppends(st1, x, hist, cfg, env);
    var r := Step(st1, x, hist, cfg, env);
    TotalsStep(st1, r.0, r.1, n);
  }

  /** The display list and the totals are left alone, or the connection is
      appended and its rates added. */
  predicate AppendsOrKeeps(st1: Tally, st2: Tally, c: Connection)
  {
    || (st2.display == st1.display && st2.txAll == st1.txAll && st2.rxAll == st1.rxAll)
    || (&& st2.display == st1.display + [c]
        && st2.txAll == U64(st1.txAll + c.bpsTx) && st2.rxAll == U64(st1.rxAll + c.bpsRx))
  }

  /** StepShape without the gate and filter facts: a step leaves the display
      list and the totals alone or appends one connection and adds its
      rates. */
  lemma StepAppends(st1: Tally, x: Connection, hist: seq<Connection>, cfg: Config, env: Env)
    requires RingValid(st1.ring)
    ensures AppendsOrKeeps(st1, Step(st1, x, hist, cfg, env).0, Step(st1, x, hist, cfg, env).1)
  {
    StepShape(st1, x, hist, cfg, env);
  }

  /** A step that either leaves the display list and the totals alone or
      appends one connection and adds its rates keeps the totals equal to
      the sums of the rates appended since position n. */
  lemma TotalsStep(st1: Tally, st2: Tally, c: Connection, n: nat)
    requires n <= |st1.display|
    requires st1.txAll == U64(SumTx(st1.display[n..])) && st1.rxAll == U64(SumRx(st1.display[n..]))
    requires AppendsOrKeeps(st1, st2, c)
    ensures && st1.display <= st2.display
            && st2.txAll == U64(SumTx(st2.display[n..]))
            && st2.rxAll == U64(SumRx(st2.display[n..]))
  {
    if !(st2.display == st1.display && st2.txAll == st1.txAll && st2.rxAll == st1.rxAll) {
      var a := st1.display[n..];
      assert st2.display[n..] == a + [c];
      TotalsAppend(0, a, c, st1.txAll, st1.rxAll);
    }
  }

  /** On the first cycle there is no previous list: nothing is diffed,
      credited, resolved or shown, and the display list is only its zeroed
      head. */
  lemma FirstCycleIdle(devs0: seq<Interface>, txAll: nat, rxAll: nat, ring: Ring, cur: seq<Connection>,
                       cfg: Config, env: Env)
    requires RingValid(ring) && !cfg.devOnly
    ensures var (st, cur') := CycleSpec(devs0, txAll, rxAll, ring, cur, None, cfg, env);
      && cur' == cur && st.devs == devs0 && st.display == [ZeroConnection] && st.pos == 0
      && st.txAll == txAll && st.rxAll == rxAll && st.ring == ring
  {
    var cmp := ConnectionOrder(cfg);
    assert InsertionSort([ZeroConnection], cmp) == Insert([], ZeroConnection, cmp);
  }

  /** The display list of a cycle, before sorting. */
  function Unsorted(devs0: seq<Interface>, ring: Ring, cur: seq<Connection>, history: Option<seq<Connection>>,
                    cfg: Config, env: Env): seq<Connection>
    requires RingValid(ring)
  {
    var st0 := Tally(devs0, [ZeroConnection], 0, 0, 0, ring);
    if history.Some? then Run(st0, cur, history.value, cfg, env).0.display else st0.display
  }

  lemma UnsortedValid(devs0: seq<Interface>, ring: Ring, cur: seq<Connection>, history: Option<seq<Connection>>,
                      cfg: Config, env: Env)
    requires RingValid(ring)
    ensures var d := Unsorted(devs0, ring, cur, history, cfg, env);
      && |d| >= 1 && d[0] == ZeroConnection && |d| <= DISPLAY_COUNT + 1
      && forall x :: x in d && x != ZeroConnection ==> Gate(cfg, x) && Passes(cfg, x)
  {
    var st0 := Tally(devs0, [ZeroConnection], 0, 0, 0, ring);
    if history.Some? {
      RunDisplay(st0, cur, history.value, cfg, env);
    }
    var d := Unsorted(devs0, ring, cur, history, cfg, env);
    forall x | x in d && x != ZeroConnection ensures Gate(cfg, x) && Passes(cfg, x) {
      var k :| 0 <= k < |d| && d[k] == x;
    }
  }

  /** What a cycle shows: apart from the zeroed head node, which is kept,
      only connections that passed the gate and the interface filter, at
      most NFTOP_DISPLAY_COUNT of them, in whatever order the sort left. */
  lemma CycleShows(devs0: seq<Interface>, ring: Ring, cur: seq<Connection>, history: Option<seq<Connection>>,
                   cfg: Config, env: Env)
    requires RingValid(ring)
    ensures var display := CycleSpec(devs0, 0, 0, ring, cur, history, cfg, env).0.display;
      && ZeroConnection in display
      && |display| <= DISPLAY_COUNT + 1
      && (forall x :: x in display && x != ZeroConnection ==> Gate(cfg, x) && Passes(cfg, x))
  {
    var d := Unsorted(devs0, ring, cur, history, cfg, env);
    UnsortedValid(devs0, ring, cur, history, cfg, env);
    var display := CycleSpec(devs0, 0, 0, ring, cur, history, cfg, env).0.display;
    assert display == d || display == InsertionSort(d, ConnectionOrder(cfg));
    ConnectionSortResult(d, cfg);
    assert multiset(display) == multiset(d);
    assert forall x :: x in display <==> x in multiset(display);
    assert forall x :: x in d <==> x in multiset(d);
  }

  /** What a cycle shows, completely: after the zeroed head node, the
      updated connections that passed the gate and the filter, in list
      order, the first NFTOP_DISPLAY_COUNT of them; the sort only reorders
      them. */
  lemma CycleShowsAll(devs0: seq<Interface>, txAll: nat, rxAll: nat, ring: Ring, cur: seq<Connection>,
                      history: Option<seq<Connection>>, cfg: Config, env: Env)
    requires RingValid(ring)
    ensures var (st, cur') := CycleSpec(devs0, txAll, rxAll, ring, cur, history, cfg, env);
      var shown := [ZeroConnection] + Capped(Matches(cfg, cur'), DISPLAY_COUNT);
      && (history.Some? ==> multiset(st.display) == multiset(shown))
      && (history.Some? && (cfg.sortField == SortNone || cfg.devOnly) ==> st.display == shown)
  {
    if history.Some? {
      var st0 := Tally(devs0, [ZeroConnection], 0, txAll, rxAll, ring);
      RunShowsAll(st0, cur, history.value, cfg, env);
      var d := Run(st0, cur, history.value, cfg, env).0.display;
      if cfg.sortField != SortNone && !cfg.devOnly {
        ConnectionSortResult(d, cfg);
      }
    }
  }

  /** Outside device-only mode a cycle changes only the rates of the
      interface list; the current list keeps its length. */
  lemma CycleLayout(devs0: seq<Interface>, txAll: nat, rxAll: nat, ring: Ring, cur: seq<Connection>,
                    history: Option<seq<Connection>>, cfg: Config, env: Env)
    requires RingValid(ring) && !cfg.devOnly
    ensures var (st, cur') := CycleSpec(devs0, txAll, rxAll, ring, cur, history, cfg, env);
      SameLayout(devs0, st.devs) && |cur'| == |cur|
  {
    if history.Some? {
      RunLayout(Tally(devs0, [ZeroConnection], 0, txAll, rxAll, ring), cur, history.value, cfg, env);
    }
  }

  // ---------------------------------------------------------------------
  // The loop as it runs

  /** The main loop's state across cycles: the interface list of the
      current cycle, the display list, array_pos, the two totals, the
      previous cycle's list (NULL before the first cycle) and the DNS
      cache. */
  class Engine {
    var devs: seq<Interface>
    var display: seq<Connection>
    var pos: nat
    var txAll: nat
    var rxAll: nat
    var history: Option<seq<Connection>>
    const cache: Cache

    ghost predicate Valid()
      reads this, cache
    {
      cache.Valid()
    }

    function State(): Tally
      reads this, cache, cache.slots
    {
      Tally(devs, display, pos, txAll, rxAll, cache.Model())
    }

    constructor ()
      ensures Valid() && history.None? && txAll == 0 && rxAll == 0
      ensures cache.Model() == EmptyRing()
    {
      devs := [];
      display := [];
      pos := 0;
      txAll := 0;
      rxAll := 0;
      history := None;
      cache := new Cache();
    }

    /** The interface lookups and crediting for one connection that passed
        the gate. */
    method ResolveInterfaces(c: Connection, pton: (int, string) -> Bytes16) returns (c': Connection)
      modifies this
      ensures (devs, c') == ResolveSpec(old(devs), c, pton)
      ensures display == old(display) && pos == old(pos) && txAll == old(txAll) && rxAll == old(rxAll)
      ensures history == old(history)
    {
      var inIdx := IfaceForAddr(c.local.dst, c.l3, devs, pton);
      if inIdx.None? {
        inIdx := IfaceForAddr(c.remote.dst, c.l3, devs, pton);
      }
      var c1 := c;
      if inIdx.None? {
        c1 := c.(netIn := c.netIn.(name := "*"));
      } else {
        var d := CreditIngress(devs[inIdx.value], c);
        devs := devs[inIdx.value := d];
        c1 := c.(netIn := d);
      }
      var outIdx := IfaceForAddr(c1.local.src, c1.l3, devs, pton);
      if outIdx.None? {
        outIdx := IfaceForAddr(c1.local.dst, c1.l3, devs, pton);
      }
      if outIdx.None? {
        c' := c1.(netOut := c1.netOut.(name := "*"));
      } else {
        if inIdx != outIdx {
          devs := devs[outIdx.value := CreditEgress(devs[outIdx.value], c1)];
        }
        c' := c1.(netOut := devs[outIdx.value]);
      }
    }

    /** The part of the loop body behind the gate. */
    method AdmitOne(c: Connection, cfg: Config, env: Env) returns (c': Connection)
      requires Valid()
      modifies this, cache, cache.slots
      ensures Valid() && history == old(history)
      ensures (State(), c') == Admit(old(State()), c, cfg, env)
    {
      ghost var st0 := State();
      var c2 := ResolveInterfaces(c, env.pton);
      assert (devs, c2) == ResolveSpec(st0.devs, c, env.pton);
      assert cache.Model() == st0.ring;
      var show := Passes(cfg, c2);
      c' := c2;
      if cfg.dns && (|c2.local.hostnameSrc| < 2 || |c2.local.hostnameDst| < 2) {
        c' := cache.AddrToHost(c2, cfg, env.resolve, env.maxHostname);
      }
      ghost var dnsStage := if WantsDns(cfg, c2) then AddrToHostSpec(st0.ring, c2, cfg, env.resolve, env.maxHostname)
                            else (st0.ring, c2);
      assert (cache.Model(), c') == dnsStage;
      AdmitCases(st0, c, cfg, env, devs, c2, cache.Model(), c');
      if show {
        Show(c');
      }
    }

    /** add_ct, the array_pos increment and the two totals for a shown
        connection. */
    method Show(c: Connection)
      modifies this
      ensures display == AddCt(old(display), c) && pos == old(pos) + 1
      ensures txAll == U64(old(txAll) + c.bpsTx) && rxAll == U64(old(rxAll) + c.bpsRx)
      ensures devs == old(devs) && history == old(history)
    {
      display := AddCt(display, c);
      pos := pos + 1;
      txAll := U64(txAll + c.bpsTx);
      rxAll := U64(rxAll + c.bpsRx);
    }

    /** The loop body for one connection while array_pos is below
        NFTOP_DISPLAY_COUNT. */
    method Process(c: Connection, hist: seq<Connection>, cfg: Config, env: Env) returns (c': Connection)
      requires Valid() && pos < DISPLAY_COUNT
      modifies this, cache, cache.slots
      ensures Valid() && history == old(history)
      ensures (State(), c') == Step(old(State()), c, hist, cfg, env)
    {
      var c1 := c;
      var k := FindHistory(hist, c);
      if k.Some? {
        c1 := DiffOne(c, hist[k.value], cfg.interval, IsLocalAddress(c.local.dst, devs));
      }
      assert c1 == Diffed(devs, c, hist, cfg);
      if !(c1.delta > 0 && c1.bpsSum >= cfg.thresh && FamilyEnabled(cfg, c1.l3)) {
        return c1;
      }
      c' := AdmitOne(c1, cfg, env);
    }

    /** One turn of the connection loop: the i-th entry of the current
        list is processed and written back in place. */
    method ProcessAt(cur: array<Connection>, i: nat, hist: seq<Connection>, cfg: Config, env: Env,
                     ghost st0: Tally, ghost cur0: seq<Connection>)
      requires Valid() && pos < DISPLAY_COUNT && i < cur.Length == |cur0|
      requires RingValid(st0.ring)
      requires (State(), cur[..i]) == Run(st0, cur0[..i], hist, cfg, env)
      requires cur[i..] == cur0[i..]
      modifies this, cache, cache.slots, cur
      ensures Valid() && history == old(history)
      ensures (State(), cur[..i + 1]) == Run(st0, cur0[..i + 1], hist, cfg, env)
      ensures cur[i + 1..] == cur0[i + 1..]
    {
      assert cur[i] == cur0[i];
      RunExtend(st0, cur0, i, hist, cfg, env);
      ghost var before := cur[..i];
      ghost var after := cur[i + 1..];
      var c := Process(cur[i], hist, cfg, env);
      cur[i] := c;
      assert cur[..i + 1] == before + [c];
      assert cur[i + 1..] == after;
    }

    /** The connection loop over the current list, which is updated in
        place; it stops once array_pos reaches NFTOP_DISPLAY_COUNT. */
    method Loop(cur: array<Connection>, hist: seq<Connection>, cfg: Config, env: Env)
      requires Valid()
      modifies this, cache, cache.slots, cur
      ensures Valid() && history == old(history)
      ensures (State(), cur[..]) == Run(old(State()), old(cur[..]), hist, cfg, env)
    {
      ghost var st0 := State();
      ghost var cur0 := cur[..];
      var i := 0;
      assert cur0[..0] == [];
      while i < cur.Length && pos < DISPLAY_COUNT
        invariant 0 <= i <= cur.Length
        invariant Valid() && history == old(history)
        invariant (State(), cur[..i]) == Run(st0, cur0[..i], hist, cfg, env)
        invariant cur[i..] == cur0[i..]
      {
        ProcessAt(cur, i, hist, cfg, env, st0, cur0);
        i := i + 1;
      }
      if i < cur.Length {
        CappedRest(st0, cur0, i, hist, cfg, env);
        assert cur[..] == cur[..i] + cur[i..];
      } else {
        assert cur0[..i] == cur0 && cur[..i] == cur[..];
      }
    }

    /** One cycle, up to the drawing: the current list `cur` (head node
        included) is updated in place. */
    method RunCycle(devs0: seq<Interface>, cur: array<Connection>, cfg: Config, env: Env)
      requires Valid()
      requires cfg.devOnly ==> |devs0| >= 1 && forall i :: 0 <= i < |devs0| ==> |devs0[i].addresses| >= 1
      modifies this, cache, cache.slots, cur
      ensures Valid() && history == old(history)
      ensures (State(), cur[..])
        == CycleSpec(devs0, old(txAll), old(rxAll), old(cache.Model()), old(cur[..]), old(history), cfg, env)
    {
      devs := devs0;
      display := [ZeroConnection];
      pos := 0;
      ghost var st0 := State();
      ghost var cur0 := cur[..];
      if history.Some? {
        Loop(cur, history.value, cfg, env);
        RunDisplay(st0, cur0, history.value, cfg, env);
        RunLayout(st0, cur0, history.value, cfg, env);
      }
      ghost var st1 := State();
      assert |st1.display| >= 1;
      assert SameLayout(devs0, st1.devs);
      if cfg.sortField != SortNone && !cfg.devOnly {
        display := SortConnections(display, cfg);
      }
      if cfg.devOnly {
        devs := SortInterfaces(devs, cfg);
      }
    }

    /** The end of a cycle: the current list becomes the history and the
        totals are cleared. */
    method EndCycle(cur: array<Connection>)
      modifies this
      ensures history == Some(cur[..]) && txAll == 0 && rxAll == 0
      ensures devs == old(devs) && display == old(display) && pos == old(pos)
    {
      history := Some(cur[..]);
      txAll := 0;
      rxAll := 0;
    }
  }
}
