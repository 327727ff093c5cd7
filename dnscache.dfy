/** The reverse-DNS cache of src/util.c (add_dns_cache, get_cached_dns,
    is_dns_cached) and the lookup policy of addr2host.

    The C cache is a linked list of at most NFTOP_MAX_DNS nodes, allocated
    as it grows, whose write position `dns_cache_head` walks forward and
    wraps to the first node; NFTOP_DNS_ITER counts the position. Here the
    nodes are the slots of one array in list order, a slot never written is
    None, and `cursor` is NFTOP_DNS_ITER, which always equals the index of
    the node `dns_cache_head` points at. */
module DnsCache {
  import opened Types

  /** NI_MAXHOST and INET6_ADDRSTRLEN of glibc: the sizes of the two
      strings in a cache node. */
  const NI_MAXHOST: nat := 1025
  const INET6_ADDRSTRLEN: nat := 46

  datatype DnsEntry = DnsEntry(ip: string, hostname: string)

  /** The cache as a value: its slots in list order and its write position. */
  datatype Ring = Ring(slots: seq<Option<DnsEntry>>, cursor: nat)

  predicate RingValid(r: Ring)
  {
    |r.slots| == MAX_DNS && r.cursor < MAX_DNS
  }

  /** The cache before the first insertion. */
  function EmptyRing(): (r: Ring)
    ensures RingValid(r) && forall i :: 0 <= i < MAX_DNS ==> r.slots[i].None?
  {
    Ring(seq(MAX_DNS, _ => None), 0)
  }

  /** What a node holds after the two strncpy calls of add_dns_cache. */
  function Stored(ip: string, hostname: string): DnsEntry
  {
    DnsEntry(Take(ip, INET6_ADDRSTRLEN - 1), Take(hostname, NI_MAXHOST - 1))
  }

  /** add_dns_cache: overwrite the node at the write position, then step to
      the next node, or back to the first one after the last. No check for
      an entry with the same address is made. */
  function RingInsert(r: Ring, ip: string, hostname: string): (r': Ring)
    requires RingValid(r)
    ensures RingValid(r')
  {
    Ring(r.slots[r.cursor := Some(Stored(ip, hostname))],
         if r.cursor + 1 < MAX_DNS then r.cursor + 1 else 0)
  }

  predicate Holds(slot: Option<DnsEntry>, ip: string)
  {
    slot.Some? && slot.value.ip == ip
  }

  /** Index of the first node, in list order, whose address is `ip`. */
  function FirstHolding(slots: seq<Option<DnsEntry>>, ip: string): (r: Option<nat>)
    ensures r.Some? ==> r.value < |slots| && Holds(slots[r.value], ip)
    ensures r.Some? ==> forall j :: 0 <= j < r.value ==> !Holds(slots[j], ip)
    ensures r.None? <==> forall j :: 0 <= j < |slots| ==> !Holds(slots[j], ip)
    decreases |slots|
  {
    if slots == [] then None
    else if Holds(slots[0], ip) then Some(0)
    else
      match FirstHolding(slots[1..], ip)
      case None =>
        assert forall j :: 1 <= j < |slots| ==> slots[j] == slots[1..][j - 1];
        None
      case Some(k) =>
        assert forall j :: 1 <= j < |slots| ==> slots[j] == slots[1..][j - 1];
        Some(k + 1)
  }

  /** get_cached_dns: the hostname of the first node holding `ip`, or None
      for NULL. */
  function CachedName(slots: seq<Option<DnsEntry>>, ip: string): (r: Option<string>)
    ensures r.Some? <==> exists j :: 0 <= j < |slots| && Holds(slots[j], ip)
    ensures r.Some? ==> r.value == slots[FirstHolding(slots, ip).value].value.hostname
  {
    match FirstHolding(slots, ip)
    case None => None
    case Some(k) => Some(slots[k].value.hostname)
  }

  /** After a miss, inserting the address makes the next lookup a hit that
      returns the stored hostname. */
  lemma InsertThenHit(r: Ring, ip: string, hostname: string)
    requires RingValid(r) && CachedName(r.slots, ip).None?
    requires |ip| < INET6_ADDRSTRLEN
    ensures CachedName(RingInsert(r, ip, hostname).slots, ip) == Some(Take(hostname, NI_MAXHOST - 1))
  {
    var s := RingInsert(r, ip, hostname).slots;
    assert Holds(s[r.cursor], ip);
    assert forall j :: 0 <= j < |s| && j != r.cursor ==> s[j] == r.slots[j];
  }

  /** No de-duplication: when the address is already held by a node before
      the write position, inserting it again leaves lookups returning the
      older hostname. */
  lemma InsertKeepsOlderEntry(r: Ring, ip: string, hostname: string)
    requires RingValid(r)
    requires FirstHolding(r.slots, ip).Some? && FirstHolding(r.slots, ip).value < r.cursor
    ensures CachedName(RingInsert(r, ip, hostname).slots, ip) == CachedName(r.slots, ip)
    ensures FirstHolding(RingInsert(r, ip, hostname).slots, ip) == FirstHolding(r.slots, ip)
  {
    var k := FirstHolding(r.slots, ip).value;
    var s := RingInsert(r, ip, hostname).slots;
    assert s[k] == r.slots[k];
    assert forall j :: 0 <= j < k ==> s[j] == r.slots[j];
  }

  /** The cache after a sequence of insertions from empty. */
  function RingOf(h: seq<DnsEntry>): (r: Ring)
    ensures RingValid(r)
    decreases |h|
  {
    if h == [] then EmptyRing()
    else RingInsert(RingOf(h[..|h| - 1]), h[|h| - 1].ip, h[|h| - 1].hostname)
  }

  /** Insertions fill the slots in order 0, 1, 2, ...: after up to
      NFTOP_MAX_DNS insertions slot i holds the i-th entry and the rest are
      unwritten. */
  lemma {:induction false} RingFill(h: seq<DnsEntry>)
    requires |h| <= MAX_DNS
    ensures RingOf(h).cursor == if |h| == MAX_DNS then 0 else |h|
    ensures forall i :: 0 <= i < MAX_DNS ==>
      RingOf(h).slots[i] == if i < |h| then Some(Stored(h[i].ip, h[i].hostname)) else None
    decreases |h|
  {
    if h != [] {
      var p := h[..|h| - 1];
      RingFill(p);
      assert forall i :: 0 <= i < |p| ==> p[i] == h[i];
    }
  }

  /** The insertion after the 4096th wraps to slot 0 and overwrites the
      first entry; the other slots keep entries 1 to 4095. */
  lemma WrapOverwritesFirst(h: seq<DnsEntry>)
    requires |h| == MAX_DNS + 1
    ensures RingOf(h).cursor == 1
    ensures RingOf(h).slots[0] == Some(Stored(h[MAX_DNS].ip, h[MAX_DNS].hostname))
    ensures forall i :: 1 <= i < MAX_DNS ==> RingOf(h).slots[i] == Some(Stored(h[i].ip, h[i].hostname))
  {
    var p := h[..MAX_DNS];
    RingFill(p);
    assert forall i :: 0 <= i < MAX_DNS ==> p[i] == h[i];
  }

  /** With 4097 distinct addresses inserted, the first one is no longer
      cached. */
  lemma FirstEvicted(h: seq<DnsEntry>)
    requires |h| == MAX_DNS + 1
    requires forall i :: 0 <= i < |h| ==> |h[i].ip| < INET6_ADDRSTRLEN
    requires forall i, j :: 0 <= i < j < |h| ==> h[i].ip != h[j].ip
    ensures CachedName(RingOf(h).slots, h[0].ip).None?
  {
    WrapOverwritesFirst(h);
    var s := RingOf(h).slots;
    forall j | 0 <= j < |s|
      ensures !Holds(s[j], h[0].ip)
    {
      if j == 0 {
        assert s[0].value.ip == h[MAX_DNS].ip;
      } else {
        assert s[j].value.ip == h[j].ip;
      }
    }
  }

  // ---------------------------------------------------------------------
  // addr2host

  /** One side of addr2host. A side is left alone when its numeric or redact
      flag is set or its hostname is already non-empty. Otherwise a cache
      hit copies the cached name; a miss asks `resolve` (getnameinfo with
      NI_NAMEREQD) and, on success, keeps and caches the name, and on
      failure caches the address as its own name and leaves the hostname
      empty. The copy is bounded by NFTOP_MAX_HOSTNAME-1 (size_t) and a hit
      also cuts the string at index NFTOP_MAX_HOSTNAME. */
  function ResolveSide(r: Ring, ip: string, hostname: string, skip: bool, l3: int,
                       resolve: (int, string) -> Option<string>, maxHostname: nat): (res: (Ring, string))
    requires RingValid(r)
    ensures RingValid(res.0)
  {
    if skip || hostname != [] then (r, hostname)
    else match CachedName(r.slots, ip)
      case Some(name) => (r, Take(Take(name, U64(maxHostname - 1)), maxHostname))
      case None =>
        match resolve(l3, ip)
        case Some(name) => (RingInsert(r, ip, name), Take(name, U64(maxHostname - 1)))
        case None => (RingInsert(r, ip, ip), hostname)
  }

  /** addr2host: the source side, then the destination side, of the local
      tuple. */
  function AddrToHostSpec(r: Ring, c: Connection, cfg: Config,
                          resolve: (int, string) -> Option<string>, maxHostname: nat): (res: (Ring, Connection))
    requires RingValid(r)
    ensures RingValid(res.0)
    ensures res.1.(local := c.local) == c
    ensures res.1.local.(hostnameSrc := c.local.hostnameSrc, hostnameDst := c.local.hostnameDst) == c.local
  {
    var (r1, hs) := ResolveSide(r, c.local.src, c.local.hostnameSrc, cfg.numericSrc || cfg.redactSrc,
                                c.l3, resolve, maxHostname);
    var (r2, hd) := ResolveSide(r1, c.local.dst, c.local.hostnameDst, cfg.numericDst || cfg.redactDst,
                                c.l3, resolve, maxHostname);
    (r2, c.(local := c.local.(hostnameSrc := hs, hostnameDst := hd)))
  }

  /** The lookup policy of one side, case by case. */
  lemma ResolveSidePolicy(r: Ring, ip: string, hostname: string, skip: bool, l3: int,
                          resolve: (int, string) -> Option<string>, maxHostname: nat)
    requires RingValid(r) && 1 <= maxHostname < TWO64
    ensures var (r', h) := ResolveSide(r, ip, hostname, skip, l3, resolve, maxHostname);
      && RingValid(r')
      && ((skip || hostname != []) ==> r' == r && h == hostname)
      && (!skip && hostname == [] && CachedName(r.slots, ip).Some? ==>
            r' == r && h == Take(CachedName(r.slots, ip).value, maxHostname - 1))
      && (!skip && hostname == [] && CachedName(r.slots, ip).None? && resolve(l3, ip).Some? ==>
            r' == RingInsert(r, ip, resolve(l3, ip).value) && h == Take(resolve(l3, ip).value, maxHostname - 1))
      && (!skip && hostname == [] && CachedName(r.slots, ip).None? && resolve(l3, ip).None? ==>
            r' == RingInsert(r, ip, ip) && h == [])
  {
    assert U64(maxHostname - 1) == maxHostname - 1;
  }

  /** A failed resolution is not retried: the next time the address is seen
      with an empty hostname, the cache answers with the address itself and
      the resolver is not consulted. */
  lemma FailureCachedAsAddress(r: Ring, ip: string, l3: int,
                               resolve: (int, string) -> Option<string>, resolve2: (int, string) -> Option<string>,
                               maxHostname: nat)
    requires RingValid(r) && CachedName(r.slots, ip).None? && resolve(l3, ip).None?
    requires |ip| < INET6_ADDRSTRLEN && 1 <= maxHostname < TWO64
    ensures var (r1, h1) := ResolveSide(r, ip, [], false, l3, resolve, maxHostname);
            var (r2, h2) := ResolveSide(r1, ip, [], false, l3, resolve2, maxHostname);
            && h1 == [] && r2 == r1 && h2 == Take(ip, maxHostname - 1)
  {
    InsertThenHit(r, ip, ip);
    assert Take(ip, NI_MAXHOST - 1) == ip;
    assert U64(maxHostname - 1) == maxHostname - 1;
  }

  /** Whether addr2host's writes into a local hostname field, a
      char[NI_MAXHOST] of the connection, stay inside it: strncpy always
      writes NFTOP_MAX_HOSTNAME-1 bytes (size_t), padding the name with
      NULs, and a cache hit then stores a NUL at index NFTOP_MAX_HOSTNAME.
      For any other width C writes past the field; ResolveSide does not
      follow that and gives the name cut at the width. */
  predicate WritesInField(maxHostname: nat)
  {
    U64(maxHostname - 1) <= NI_MAXHOST && maxHostname < NI_MAXHOST
  }

  /** The resolver addr2host presents to getnameinfo: the address text is
      parsed with inet_pton(AF_INET, ...) into a sockaddr_in that carries the
      flow's family, and sizeof(struct sockaddr_in) is passed as its length.
      An IPv4 flow is looked up by `lookup4`; for any other family that
      length does not fit and getnameinfo fails (EAI_FAMILY). */
  function SourceResolver(lookup4: string -> Option<string>): (resolve: (int, string) -> Option<string>)
    ensures forall ip :: resolve(AF_INET, ip) == lookup4(ip)
    ensures forall ip :: resolve(AF_INET6, ip).None?
  {
    (l3: int, ip: string) => if l3 == AF_INET then lookup4(ip) else None
  }

  /** Under the resolver of addr2host an IPv6 address never gets a name:
      the first lookup fails and caches the address as its own name, and
      the next one finds that entry. */
  lemma IPv6NeverNamed(r: Ring, ip: string, lookup4: string -> Option<string>, maxHostname: nat)
    requires RingValid(r) && CachedName(r.slots, ip).None?
    requires |ip| < INET6_ADDRSTRLEN && 1 <= maxHostname < TWO64
    ensures var resolve := SourceResolver(lookup4);
            var (r1, h1) := ResolveSide(r, ip, [], false, AF_INET6, resolve, maxHostname);
            var (r2, h2) := ResolveSide(r1, ip, [], false, AF_INET6, resolve, maxHostname);
            && h1 == [] && r1 == RingInsert(r, ip, ip) && r2 == r1 && h2 == Take(ip, maxHostname - 1)
  {
    var resolve := SourceResolver(lookup4);
    assert resolve(AF_INET6, ip).None?;
    FailureCachedAsAddress(r, ip, AF_INET6, resolve, resolve, maxHostname);
  }

  /** The cache object: one node per slot, in list order. */
  class Cache {
    const slots: array<Option<DnsEntry>>
    var cursor: nat

    ghost predicate Valid()
      reads this
    {
      slots.Length == MAX_DNS && cursor < MAX_DNS
    }

    function Model(): Ring
      reads this, slots
    {
      Ring(slots[..], cursor)
    }

    constructor ()
      ensures Valid() && fresh(slots) && Model() == EmptyRing()
    {
      slots := new Option<DnsEntry>[MAX_DNS](_ => None);
      cursor := 0;
    }

    /** add_dns_cache */
    method Add(ip: string, hostname: string)
      requires Valid()
      modifies this, slots
      ensures Valid() && Model() == RingInsert(old(Model()), ip, hostname)
    {
      slots[cursor] := Some(Stored(ip, hostname));
      if cursor + 1 < MAX_DNS {
        cursor := cursor + 1;
      } else {
        cursor := 0;
      }
    }

    /** get_cached_dns: walks the nodes from the first. */
    method Lookup(ip: string) returns (r: Option<string>)
      requires Valid()
      ensures r == CachedName(slots[..], ip)
    {
      var i := 0;
      while i < slots.Length
        invariant 0 <= i <= slots.Length
        invariant forall j :: 0 <= j < i ==> !Holds(slots[j], ip)
      {
        var node := slots[i];
        if node.Some? && node.value.ip == ip {
          assert FirstHolding(slots[..], ip) == Some(i);
          return Some(node.value.hostname);
        }
        i := i + 1;
      }
      return None;
    }

    /** is_dns_cached: the same walk, answering only whether it found one. */
    method IsCached(ip: string) returns (b: bool)
      requires Valid()
      ensures b <==> CachedName(slots[..], ip).Some?
    {
      var i := 0;
      while i < slots.Length
        invariant 0 <= i <= slots.Length
        invariant forall j :: 0 <= j < i ==> !Holds(slots[j], ip)
      {
        if slots[i].Some? && slots[i].value.ip == ip {
          assert Holds(slots[..][i], ip);
          return true;
        }
        i := i + 1;
      }
      return false;
    }

    method ResolveOne(ip: string, hostname: string, skip: bool, l3: int,
                      resolve: (int, string) -> Option<string>, maxHostname: nat) returns (h: string)
      requires Valid()
      modifies this, slots
      ensures Valid()
      ensures (Model(), h) == ResolveSide(old(Model()), ip, hostname, skip, l3, resolve, maxHostname)
    {
      h := hostname;
      if !skip && |hostname| < 1 {
        var fromCache := Lookup(ip);
        if fromCache.None? {
          var resolved := resolve(l3, ip);
          if resolved.Some? {
            h := Take(resolved.value, U64(maxHostname - 1));
            Add(ip, resolved.value);
          } else {
            Add(ip, ip);
          }
        } else {
          h := Take(Take(fromCache.value, U64(maxHostname - 1)), maxHostname);
        }
      }
    }

    /** addr2host on one connection; returns the connection with its local
        hostnames filled in. */
    method AddrToHost(c: Connection, cfg: Config, resolve: (int, string) -> Option<string>, maxHostname: nat)
      returns (c': Connection)
      requires Valid()
      modifies this, slots
      ensures Valid()
      ensures (Model(), c') == AddrToHostSpec(old(Model()), c, cfg, resolve, maxHostname)
    {
      var hs := ResolveOne(c.local.src, c.local.hostnameSrc, cfg.numericSrc || cfg.redactSrc,
                           c.l3, resolve, maxHostname);
      var hd := ResolveOne(c.local.dst, c.local.hostnameDst, cfg.numericDst || cfg.redactDst,
                           c.l3, resolve, maxHostname);
      c' := c.(local := c.local.(hostnameSrc := hs, hostnameDst := hd));
    }
  }
}
