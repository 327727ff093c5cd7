/** Interface resolution, rate aggregation and the interface filter of the
    main loop of src/main.c: for a connection that passed the gate, find
    its ingress and egress interfaces, credit its rates to them and to
    their addresses, and decide whether it is shown. */
module Resolve {
  import opened Types
  import opened Directory

  /** The gate before resolution: the flow has an age, reaches the
      threshold, and its family is enabled. */
  predicate Gate(cfg: Config, c: Connection)
  {
    c.delta > 0 && c.bpsSum >= cfg.thresh && FamilyEnabled(cfg, c.l3)
  }

  /** With IPv4 switched off no IPv4 flow gets past the gate, and likewise
      for IPv6; flows of any other family never do. */
  lemma GateFamilies(cfg: Config, c: Connection)
    ensures c.l3 == AF_INET && !cfg.ipv4 ==> !Gate(cfg, c)
    ensures c.l3 == AF_INET6 && !cfg.ipv6 ==> !Gate(cfg, c)
    ensures c.l3 != AF_INET && c.l3 != AF_INET6 ==> !Gate(cfg, c)
  {
  }

  /** getIfaceNameForAddr on `first`, falling back to `second`. */
  function LookupEither(devs: seq<Interface>, first: string, second: string, l3: int,
                        pton: (int, string) -> Bytes16): (r: Option<nat>)
    ensures r.Some? ==> r.value < |devs|
    ensures FirstIface(devs, first, l3, pton(l3, first)).Some? ==> r == FirstIface(devs, first, l3, pton(l3, first))
    ensures FirstIface(devs, first, l3, pton(l3, first)).None? ==> r == FirstIface(devs, second, l3, pton(l3, second))
  {
    match FirstIface(devs, first, l3, pton(l3, first))
    case Some(i) => Some(i)
    case None => FirstIface(devs, second, l3, pton(l3, second))
  }

  // ---------------------------------------------------------------------
  // Crediting

  /** One address: credited with the connection's rates when its text is
      one of `ips`. */
  function CreditAddress(a: Address, ips: set<string>, tx: int, rx: int): Address
  {
    if a.ip in ips then a.(bpsTx := a.bpsTx + tx, bpsRx := a.bpsRx + rx, bpsSum := a.bpsSum + tx + rx) else a
  }

  /** The walk over an interface's address list: every address whose text
      is one of `ips` is credited, the others are untouched. */
  function CreditAddresses(addrs: seq<Address>, ips: set<string>, tx: int, rx: int): (r: seq<Address>)
    ensures |r| == |addrs|
    ensures forall k :: 0 <= k < |r| ==> r[k] == CreditAddress(addrs[k], ips, tx, rx)
  {
    seq(|addrs|, k requires 0 <= k < |addrs| => CreditAddress(addrs[k], ips, tx, rx))
  }

  /** The ingress interface: its three rates grow by the connection's, and
      the addresses equal to local.src, remote.dst or local.dst are
      credited. */
  function CreditIngress(d: Interface, c: Connection): Interface
  {
    d.(bpsTx := d.bpsTx + c.bpsTx, bpsRx := d.bpsRx + c.bpsRx, bpsSum := d.bpsSum + c.bpsTx + c.bpsRx,
       addresses := CreditAddresses(d.addresses, {c.local.src, c.remote.dst, c.local.dst}, c.bpsTx, c.bpsRx))
  }

  /** The egress interface: transmit grows by the connection's receive rate
      and receive by its transmit rate, the sum is overwritten with the
      connection's total, and the addresses equal to remote.src, remote.dst
      or local.src are credited without the swap. */
  function CreditEgress(d: Interface, c: Connection): Interface
  {
    d.(bpsTx := d.bpsTx + c.bpsRx, bpsRx := d.bpsRx + c.bpsTx, bpsSum := c.bpsTx + c.bpsRx,
       addresses := CreditAddresses(d.addresses, {c.remote.src, c.remote.dst, c.local.src}, c.bpsTx, c.bpsRx))
  }

  predicate SumConsistent(d: Interface)
  {
    d.bpsSum == d.bpsTx + d.bpsRx
  }

  /** Ingress crediting keeps an interface's sum equal to transmit plus
      receive; egress crediting does not, because it assigns the sum: an
      interface that already carried traffic ends with a sum that is only
      the last connection's total. */
  lemma EgressAssignsSum(d: Interface, c: Connection)
    ensures SumConsistent(d) ==> SumConsistent(CreditIngress(d, c))
    ensures CreditEgress(d, c).bpsSum == c.bpsTx + c.bpsRx
    ensures CreditEgress(d, c).bpsTx + CreditEgress(d, c).bpsRx == d.bpsTx + d.bpsRx + c.bpsTx + c.bpsRx
    ensures d.bpsTx + d.bpsRx != 0 ==> !SumConsistent(CreditEgress(d, c))
  {
  }

  // ---------------------------------------------------------------------
  // The layout crediting leaves alone

  /** Two device lists that differ at most in their rates. */
  predicate SameLayout(a: seq<Interface>, b: seq<Interface>)
  {
    |a| == |b| &&
    forall i :: 0 <= i < |a| ==>
      a[i].name == b[i].name && a[i].flags == b[i].flags &&
      |a[i].addresses| == |b[i].addresses| &&
      forall k :: 0 <= k < |a[i].addresses| ==>
        a[i].addresses[k].ip == b[i].addresses[k].ip &&
        a[i].addresses[k].family == b[i].addresses[k].family &&
        a[i].addresses[k].addr == b[i].addresses[k].addr &&
        a[i].addresses[k].mask == b[i].addresses[k].mask
  }

  /** Interface lookups and isLocalAddress only look at the layout, so
      crediting earlier connections never changes where a later one
      resolves. */
  lemma {:induction false} LayoutDecidesLookup(a: seq<Interface>, b: seq<Interface>, text: string, family: int, check: Bytes16)
    requires SameLayout(a, b)
    ensures FirstIface(a, text, family, check) == FirstIface(b, text, family, check)
    ensures IsLocalAddress(text, a) == IsLocalAddress(text, b)
    decreases |a|
  {
    forall i | 0 <= i < |a|
      ensures HasMatch(a[i], text, family, check) == HasMatch(b[i], text, family, check)
    {
      if HasMatch(a[i], text, family, check) {
        var k :| 0 <= k < |a[i].addresses| && AddrMatches(a[i].addresses[k], text, family, check);
        assert AddrMatches(b[i].addresses[k], text, family, check);
      }
      if HasMatch(b[i], text, family, check) {
        var k :| 0 <= k < |b[i].addresses| && AddrMatches(b[i].addresses[k], text, family, check);
        assert AddrMatches(a[i].addresses[k], text, family, check);
      }
    }
    if Owned(text, a) {
      var i, k :| 0 <= i < |a| && 0 <= k < |a[i].addresses| && a[i].addresses[k].ip == text;
      assert b[i].addresses[k].ip == text;
    }
    if Owned(text, b) {
      var i, k :| 0 <= i < |b| && 0 <= k < |b[i].addresses| && b[i].addresses[k].ip == text;
      assert a[i].addresses[k].ip == text;
    }
    var fa := FirstIface(a, text, family, check);
    var fb := FirstIface(b, text, family, check);
    if fa.Some? && fb.Some? {
      assert !(fa.value < fb.value) && !(fb.value < fa.value);
    }
  }

  lemma CreditKeepsLayout(devs: seq<Interface>, i: nat, d: Interface)
    requires i < |devs|
    requires d.name == devs[i].name && d.flags == devs[i].flags
    requires |d.addresses| == |devs[i].addresses|
    requires forall k :: 0 <= k < |d.addresses| ==>
      d.addresses[k].(bpsRx := 0, bpsTx := 0, bpsSum := 0) == devs[i].addresses[k].(bpsRx := 0, bpsTx := 0, bpsSum := 0)
    ensures SameLayout(devs, devs[i := d])
  {
    forall k | 0 <= k < |d.addresses|
      ensures d.addresses[k].ip == devs[i].addresses[k].ip
      ensures d.addresses[k].family == devs[i].addresses[k].family
      ensures d.addresses[k].addr == devs[i].addresses[k].addr
      ensures d.addresses[k].mask == devs[i].addresses[k].mask
    {
      var x := d.addresses[k].(bpsRx := 0, bpsTx := 0, bpsSum := 0);
      var y := devs[i].addresses[k].(bpsRx := 0, bpsTx := 0, bpsSum := 0);
      assert x.ip == y.ip && x.family == y.family && x.addr == y.addr && x.mask == y.mask;
    }
  }

  lemma SameLayoutTrans(a: seq<Interface>, b: seq<Interface>, c: seq<Interface>)
    requires SameLayout(a, b) && SameLayout(b, c)
    ensures SameLayout(a, c)
  {
  }

  // ---------------------------------------------------------------------
  // Resolution of one connection

  /** Ingress from local.dst (else remote.dst): credited and copied into
      the connection, or the name "*" when no interface answers. */
  function IngressStage(devs: seq<Interface>, c: Connection, pton: (int, string) -> Bytes16)
    : (seq<Interface>, Connection)
  {
    match LookupEither(devs, c.local.dst, c.remote.dst, c.l3, pton)
    case None => (devs, c.(netIn := c.netIn.(name := "*")))
    case Some(i) =>
      var d := CreditIngress(devs[i], c);
      (devs[i := d], c.(netIn := d))
  }

  /** Egress from local.src (else local.dst): credited only when it is
      another interface than the ingress `inIdx`, then copied into the
      connection, or the name "*" when no interface answers. */
  function EgressStage(devs: seq<Interface>, c: Connection, inIdx: Option<nat>, pton: (int, string) -> Bytes16)
    : (seq<Interface>, Connection)
  {
    match LookupEither(devs, c.local.src, c.local.dst, c.l3, pton)
    case None => (devs, c.(netOut := c.netOut.(name := "*")))
    case Some(j) =>
      var devs2 := if inIdx != Some(j) then devs[j := CreditEgress(devs[j], c)] else devs;
      (devs2, c.(netOut := devs2[j]))
  }

  /** Resolution of one connection: ingress, then egress on the list the
      ingress step left. */
  function ResolveSpec(devs: seq<Interface>, c: Connection, pton: (int, string) -> Bytes16)
    : (seq<Interface>, Connection)
  {
    var (devs1, c1) := IngressStage(devs, c, pton);
    EgressStage(devs1, c1, LookupEither(devs, c.local.dst, c.remote.dst, c.l3, pton), pton)
  }

  lemma IngressFacts(devs: seq<Interface>, c: Connection, pton: (int, string) -> Bytes16)
    ensures var (devs1, c1) := IngressStage(devs, c, pton);
      var inIdx := LookupEither(devs, c.local.dst, c.remote.dst, c.l3, pton);
      && c1.(netIn := c.netIn) == c
      && (inIdx.None? ==> devs1 == devs && c1.netIn.name == "*")
      && (inIdx.Some? ==> devs1 == devs[inIdx.value := CreditIngress(devs[inIdx.value], c)]
                          && c1.netIn == devs1[inIdx.value])
  {
  }

  lemma IngressLayout(devs: seq<Interface>, c: Connection, pton: (int, string) -> Bytes16)
    ensures SameLayout(devs, IngressStage(devs, c, pton).0)
  {
    var inIdx := LookupEither(devs, c.local.dst, c.remote.dst, c.l3, pton);
    if inIdx.Some? {
      CreditKeepsLayout(devs, inIdx.value, CreditIngress(devs[inIdx.value], c));
    }
  }

  lemma EgressFacts(devs: seq<Interface>, c: Connection, inIdx: Option<nat>, pton: (int, string) -> Bytes16)
    ensures var (devs2, c2) := EgressStage(devs, c, inIdx, pton);
      var outIdx := LookupEither(devs, c.local.src, c.local.dst, c.l3, pton);
      && c2.(netOut := c.netOut) == c
      && (outIdx.None? ==> devs2 == devs && c2.netOut.name == "*")
      && (outIdx.Some? && outIdx != inIdx ==>
            devs2 == devs[outIdx.value := CreditEgress(devs[outIdx.value], c)])
      && (outIdx.Some? && outIdx == inIdx ==> devs2 == devs)
      && (outIdx.Some? ==> c2.netOut == devs2[outIdx.value])
  {
  }

  lemma EgressLayout(devs: seq<Interface>, c: Connection, inIdx: Option<nat>, pton: (int, string) -> Bytes16)
    ensures SameLayout(devs, EgressStage(devs, c, inIdx, pton).0)
  {
    var outIdx := LookupEither(devs, c.local.src, c.local.dst, c.l3, pton);
    if outIdx.Some? && outIdx != inIdx {
      CreditKeepsLayout(devs, outIdx.value, CreditEgress(devs[outIdx.value], c));
    }
  }

  /** The egress lookup gives the same answer on the list before ingress
      crediting as after it. */
  lemma EgressLookupUnaffected(devs: seq<Interface>, c: Connection, pton: (int, string) -> Bytes16)
    ensures var (devs1, c1) := IngressStage(devs, c, pton);
      LookupEither(devs1, c1.local.src, c1.local.dst, c1.l3, pton)
        == LookupEither(devs, c.local.src, c.local.dst, c.l3, pton)
  {
    var (devs1, c1) := IngressStage(devs, c, pton);
    IngressFacts(devs, c, pton);
    IngressLayout(devs, c, pton);
    LayoutDecidesLookup(devs, devs1, c.local.src, c.l3, pton(c.l3, c.local.src));
    LayoutDecidesLookup(devs, devs1, c.local.dst, c.l3, pton(c.l3, c.local.dst));
  }

  /** What resolution does to the device list and to the connection: an
      interface that is both ingress and egress is credited once, as
      ingress; a distinct egress interface is credited by the egress rule;
      no other interface changes; the layout that lookups read is kept. */
  lemma ResolveAccounting(devs: seq<Interface>, c: Connection, pton: (int, string) -> Bytes16)
    ensures var devs' := ResolveSpec(devs, c, pton).0;
      var inIdx := LookupEither(devs, c.local.dst, c.remote.dst, c.l3, pton);
      var outIdx := LookupEither(devs, c.local.src, c.local.dst, c.l3, pton);
      && (inIdx.Some? && outIdx == inIdx ==>
            devs' == devs[inIdx.value := CreditIngress(devs[inIdx.value], c)])
      && (inIdx.Some? && outIdx.Some? && outIdx != inIdx ==>
            devs' == devs[inIdx.value := CreditIngress(devs[inIdx.value], c)]
                         [outIdx.value := CreditEgress(devs[outIdx.value], c)])
      && (inIdx.None? && outIdx.Some? ==>
            devs' == devs[outIdx.value := CreditEgress(devs[outIdx.value], c)])
      && (inIdx.None? && outIdx.None? ==> devs' == devs)
  {
    var inIdx := LookupEither(devs, c.local.dst, c.remote.dst, c.l3, pton);
    var outIdx := LookupEither(devs, c.local.src, c.local.dst, c.l3, pton);
    var st1 := IngressStage(devs, c, pton);
    IngressFacts(devs, c, pton);
    EgressLookupUnaffected(devs, c, pton);
    var st2 := EgressStage(st1.0, st1.1, inIdx, pton);
    EgressFacts(st1.0, st1.1, inIdx, pton);
    if outIdx.Some? {
      assert CreditEgress(st1.0[outIdx.value], st1.1) == CreditEgress(st1.0[outIdx.value], c);
    }
    ComposeStages(devs, st1.0, st2.0, c, st1.1, inIdx, outIdx);
  }

  /** The two stages chained, over abstract lists: what the ingress stage
      and then the egress stage leave, case by case. */
  lemma ComposeStages(devs: seq<Interface>, devs1: seq<Interface>, devs2: seq<Interface>,
                      c: Connection, c1: Connection, inIdx: Option<nat>, outIdx: Option<nat>)
    requires inIdx.None? ==> devs1 == devs
    requires inIdx.Some? ==> inIdx.value < |devs| && devs1 == devs[inIdx.value := CreditIngress(devs[inIdx.value], c)]
    requires outIdx.Some? ==> outIdx.value < |devs1|
    requires outIdx.None? ==> devs2 == devs1
    requires outIdx.Some? && outIdx != inIdx ==>
               devs2 == devs1[outIdx.value := CreditEgress(devs1[outIdx.value], c1)]
    requires outIdx.Some? && outIdx == inIdx ==> devs2 == devs1
    requires outIdx.Some? ==> CreditEgress(devs1[outIdx.value], c1) == CreditEgress(devs1[outIdx.value], c)
    ensures inIdx.Some? && outIdx == inIdx ==>
              devs2 == devs[inIdx.value := CreditIngress(devs[inIdx.value], c)]
    ensures inIdx.Some? && outIdx.Some? && outIdx != inIdx ==>
              devs2 == devs[inIdx.value := CreditIngress(devs[inIdx.value], c)]
                           [outIdx.value := CreditEgress(devs[outIdx.value], c)]
    ensures inIdx.None? && outIdx.Some? ==>
              devs2 == devs[outIdx.value := CreditEgress(devs[outIdx.value], c)]
    ensures inIdx.None? && outIdx.None? ==> devs2 == devs
  {
    if outIdx.Some? && outIdx != inIdx {
      assert devs1[outIdx.value] == devs[outIdx.value];
    }
  }

  /** Resolution changes only rates: lookups on the list it leaves answer
      as they did before. */
  lemma ResolveKeepsLayout(devs: seq<Interface>, c: Connection, pton: (int, string) -> Bytes16)
    ensures SameLayout(devs, ResolveSpec(devs, c, pton).0)
  {
    var inIdx := LookupEither(devs, c.local.dst, c.remote.dst, c.l3, pton);
    var st1 := IngressStage(devs, c, pton);
    IngressLayout(devs, c, pton);
    EgressLayout(st1.0, st1.1, inIdx, pton);
    SameLayoutTrans(devs, st1.0, ResolveSpec(devs, c, pton).0);
  }

  /** The connection after resolution: only its two interface copies
      change; an unresolved side is named "*"; a resolved side holds the
      interface as credited. */
  lemma ResolveConnection(devs: seq<Interface>, c: Connection, pton: (int, string) -> Bytes16)
    ensures var (devs', c') := ResolveSpec(devs, c, pton);
      var inIdx := LookupEither(devs, c.local.dst, c.remote.dst, c.l3, pton);
      var outIdx := LookupEither(devs, c.local.src, c.local.dst, c.l3, pton);
      && c'.(netIn := c.netIn, netOut := c.netOut) == c
      && (inIdx.None? ==> c'.netIn.name == "*")
      && (outIdx.None? ==> c'.netOut.name == "*")
      && (inIdx.Some? ==> c'.netIn == CreditIngress(devs[inIdx.value], c))
      && (outIdx.Some? ==> c'.netOut == devs'[outIdx.value])
  {
    var (devs1, c1) := IngressStage(devs, c, pton);
    var inIdx := LookupEither(devs, c.local.dst, c.remote.dst, c.l3, pton);
    IngressFacts(devs, c, pton);
    EgressLookupUnaffected(devs, c, pton);
    EgressFacts(devs1, c1, inIdx, pton);
  }

  // ---------------------------------------------------------------------
  // Filter

  /** An interface-name filter: with `fuzzy` the name must start with the
      filter (strncmp over the filter's length), otherwise equal it. */
  predicate NameMatches(name: string, filter: string, fuzzy: bool)
  {
    if fuzzy then filter <= name else name == filter
  }

  /** The filter after resolution: no filter matches everything; an
      in-filter, when set, is the only one checked; otherwise the
      out-filter. A loopback ingress is rejected when loopback is hidden. */
  predicate Passes(cfg: Config, c: Connection)
  {
    var named :=
      if cfg.inIface.None? && cfg.outIface.None? then true
      else if cfg.inIface.Some? then NameMatches(c.netIn.name, cfg.inIface.value, cfg.inFuzzy)
      else NameMatches(c.netOut.name, cfg.outIface.value, cfg.outFuzzy);
    named && !(c.netIn.flags & IFF_LOOPBACK != 0 && cfg.noLoopback)
  }

  /** The filter, case by case. */
  lemma FilterRules(cfg: Config, c: Connection, cfg': Config)
    requires cfg'.inIface == cfg.inIface && cfg'.inFuzzy == cfg.inFuzzy && cfg'.noLoopback == cfg.noLoopback
    ensures cfg.inIface.None? && cfg.outIface.None? ==>
      (Passes(cfg, c) <==> !(c.netIn.flags & IFF_LOOPBACK != 0 && cfg.noLoopback))
    ensures cfg.inIface.Some? ==> Passes(cfg, c) == Passes(cfg', c)
    ensures c.netIn.flags & IFF_LOOPBACK != 0 && cfg.noLoopback ==> !Passes(cfg, c)
  {
  }

  /** A fuzzy "eth" filter admits eth0; an exact one does not. */
  lemma FuzzyIsPrefix()
    ensures NameMatches("eth0", "eth", true)
    ensures !NameMatches("eth0", "eth", false)
    ensures !NameMatches("et", "eth", true)
  {
    assert "eth" == "eth0"[..3];
    assert |"eth0"| != |"eth"|;
    assert |"et"| < |"eth"|;
  }
}
