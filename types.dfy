/** Records, constants and configuration shared by every part of the model of
    nftop: the structs of src/nftop.h and src/util.h, the Linux constants the
    source compares against, and the C integer conversions it relies on. */
module Types {

  datatype Option<T> = None | Some(value: T)

  datatype Result<T> = Ok(value: T) | Err(message: string)

  // ---------------------------------------------------------------------
  // C integer widths. Dafny integers are unbounded; each conversion the
  // source performs implicitly is written out with one of these.

  const TWO31: int := 0x8000_0000
  const TWO32: int := 0x1_0000_0000
  const TWO63: int := 0x8000_0000_0000_0000
  const TWO64: int := 0x1_0000_0000_0000_0000

  /** Conversion of any integer to uint32_t (reduction modulo 2^32). */
  function U32(x: int): (r: nat)
    ensures r < TWO32
    ensures 0 <= x < TWO32 ==> r == x
  {
    x % TWO32
  }

  /** Conversion of any integer to uint64_t / size_t (reduction modulo 2^64). */
  function U64(x: int): (r: nat)
    ensures r < TWO64
    ensures 0 <= x < TWO64 ==> r == x
  {
    x % TWO64
  }

  /** Conversion to int64_t as gcc performs it (two's complement wrap). */
  function I64(x: int): (r: int)
    ensures -TWO63 <= r < TWO63
    ensures -TWO63 <= x < TWO63 ==> r == x
  {
    var u := x % TWO64;
    if u >= TWO63 then u - TWO64 else u
  }

  /** Conversion to a 32-bit int as gcc performs it (two's complement wrap). */
  function I32(x: int): (r: int)
    ensures -TWO31 <= r < TWO31
    ensures -TWO31 <= x < TWO31 ==> r == x
  {
    var u := x % TWO32;
    if u >= TWO31 then u - TWO32 else u
  }

  /** C division of integers, which truncates toward zero (Dafny's `/` is
      Euclidean). */
  function CDiv(a: int, b: int): (q: int)
    requires b > 0
    ensures a >= 0 ==> q == a / b
    ensures a < 0 ==> q == -((-a) / b)
  {
    if a >= 0 then a / b else -((-a) / b)
  }

  // ---------------------------------------------------------------------
  // Linux constants the source compares against.

  const AF_INET: int := 2
  const AF_INET6: int := 10

  const IPPROTO_ICMP: int := 1
  const IPPROTO_IGMP: int := 2
  const IPPROTO_TCP: int := 6
  const IPPROTO_UDP: int := 17
  const IPPROTO_IPV6: int := 41
  const IPPROTO_ICMPV6: int := 58
  const IPPROTO_UDPLITE: int := 136

  // Bits of the conntrack status word (enum ip_conntrack_status).
  const IPS_SEEN_REPLY: bv32 := 0x2
  const IPS_ASSURED: bv32 := 0x4
  const IPS_CONFIRMED: bv32 := 0x8
  const IPS_SRC_NAT: bv32 := 0x10
  const IPS_DST_NAT: bv32 := 0x20
  const IPS_UNTRACKED: bv32 := 0x1000

  // enum tcp_conntrack; SYN_SENT2 shares the value of the obsolete LISTEN.
  const TCP_CONNTRACK_SYN_SENT: int := 1
  const TCP_CONNTRACK_FIN_WAIT: int := 4
  const TCP_CONNTRACK_CLOSE_WAIT: int := 5
  const TCP_CONNTRACK_TIME_WAIT: int := 7
  const TCP_CONNTRACK_CLOSE: int := 8
  const TCP_CONNTRACK_SYN_SENT2: int := 9

  const IFF_LOOPBACK: bv32 := 0x8
  const IFNAMSIZ: nat := 16
  const NSEC_PER_SEC: int := 1_000_000_000

  /** NFTOP_MAX_DNS: number of nodes of the reverse-DNS ring. */
  const MAX_DNS: nat := 4096
  /** NFTOP_DISPLAY_COUNT: most connections kept for display per cycle. */
  const DISPLAY_COUNT: nat := 1024

  // ---------------------------------------------------------------------
  // Records.

  /** The 16 bytes of address data a sockaddr_storage holds for IPv6; IPv4
      uses the first 4. */
  type Bytes16 = s: seq<bv8> | |s| == 16
    witness [0, 0, 0, 0, 0, 0, 0, 0, 0, 0, 0, 0, 0, 0, 0, 0]

  /** struct Address: one address bound to an interface, with its binary
      address and netmask and the rates credited to it this cycle. */
  datatype Address = Address(
    ip: string,
    netmask: string,
    family: int,
    addr: Bytes16,
    mask: Bytes16,
    bpsRx: int,
    bpsTx: int,
    bpsSum: int)

  /** struct Interface: a network device, its flags, its addresses and the
      rates aggregated onto it this cycle. */
  datatype Interface = Interface(
    name: string,
    flags: bv32,
    nAddresses: int,
    bpsRx: int,
    bpsTx: int,
    bpsSum: int,
    addresses: seq<Address>)

  /** A zero-filled struct Interface (memset 0). */
  const ZeroInterface: Interface := Interface("", 0, 0, 0, 0, 0, [])

  /** struct Network: one side of a connection as shown. */
  datatype Network = Network(
    src: string,
    sport: int,
    dst: string,
    dport: int,
    hostnameSrc: string,
    hostnameDst: string)

  const ZeroNetwork: Network := Network("", 0, "", 0, "", "")

  /** struct Connection: one tracked flow. `netIn`/`netOut` are the copies of
      the ingress/egress interface taken at resolution time; `statusStr` is
      the C `char *status_str` (None for NULL). */
  datatype Connection = Connection(
    id: int,
    netIn: Interface,
    netOut: Interface,
    statusStr: Option<string>,
    bytesOrig: int,
    bytesRepl: int,
    bytesSum: int,
    bpsRx: int,
    bpsTx: int,
    bpsSum: int,
    delta: int,
    timeStart: int,
    l3: int,
    l4: int,
    local: Network,
    remote: Network,
    status: bv32,
    statusL4: int,
    isSrcNat: bool,
    isDstNat: bool)

  /** A zero-filled struct Connection: the head node main allocates for the
      current list and for the display list. */
  const ZeroConnection: Connection :=
    Connection(0, ZeroInterface, ZeroInterface, None, 0, 0, 0, 0, 0, 0, 0, 0, 0, 0,
               ZeroNetwork, ZeroNetwork, 0, 0, false, false)

  // ---------------------------------------------------------------------
  // Configuration: the NFTOP_U_* user options and the NFTOP_FLAGS_* runtime
  // flags, as one value.

  /** enum nftop_sort_fields */
  datatype SortField =
    | SortNone | SortId | SortIn | SortOut | SortSport | SortDport
    | SortRx | SortTx | SortSum | SortAge | SortProto

  datatype Config = Config(
    interval: int,          // NFTOP_U_INTERVAL
    displayAge: int,        // NFTOP_U_DISPLAY_AGE: 0 none, 1 seconds, 2 d/h/m/s
    displayStatus: bool,    // NFTOP_U_DISPLAY_STATUS
    si: bool,               // NFTOP_U_SI
    bytes: bool,            // NFTOP_U_BYTES
    thresh: int,            // NFTOP_U_THRESH
    inIface: Option<string>,  // NFTOP_U_IN_IFACE (None for NULL)
    inFuzzy: bool,          // NFTOP_U_IN_IFACE_FUZZY
    outIface: Option<string>, // NFTOP_U_OUT_IFACE
    outFuzzy: bool,         // NFTOP_U_OUT_IFACE_FUZZY
    sortField: SortField,   // NFTOP_U_SORT_FIELD
    sortAsc: bool,          // NFTOP_U_SORT_ASC
    noLoopback: bool,       // NFTOP_U_NO_LOOPBACK
    ipv4: bool,             // NFTOP_U_IPV4
    ipv6: bool,             // NFTOP_U_IPV6
    wide: bool,             // NFTOP_U_REPORT_WIDE
    displayId: bool,        // NFTOP_U_DISPLAY_ID
    dns: bool,              // NFTOP_U_DNS
    redactSrc: bool,        // NFTOP_U_REDACT_SRC
    redactDst: bool,        // NFTOP_U_REDACT_DST
    numericSrc: bool,       // NFTOP_U_NUMERIC_SRC
    numericDst: bool,       // NFTOP_U_NUMERIC_DST
    bps: bool,              // NFTOP_U_BPS
    continuous: bool,       // NFTOP_U_CONTINUOUS
    paused: bool,           // NFTOP_FLAGS_PAUSE
    exiting: bool,          // NFTOP_FLAGS_EXIT
    devOnly: bool)          // NFTOP_FLAGS_DEV_ONLY

  /** The initial values of the globals in src/main.c. */
  const Defaults: Config := Config(
    2, 0, false, false, false, 1, None, false, None, false, SortSum, false,
    true, true, true, false, false, true, false, false, false, false, false,
    false, false, false, false)

  /** Is the connection's L3 family enabled (the switch before resolution)? */
  predicate FamilyEnabled(cfg: Config, l3: int)
  {
    if l3 == AF_INET then cfg.ipv4 else if l3 == AF_INET6 then cfg.ipv6 else false
  }

  /** strncpy into a zeroed buffer: at most n characters of s survive. */
  function Take(s: string, n: int): (r: string)
    ensures |r| <= |s| && r == s[..|r|]
    ensures n >= 0 ==> |r| == if |s| <= n then |s| else n
  {
    if n < 0 || |s| <= n then s else s[..n]
  }

  /** strcmp, reduced to its sign: lexicographic order on characters, a
      proper prefix sorting first. */
  function StrCmp(a: string, b: string): (r: int)
    ensures r == 0 || r == 1 || r == -1
    decreases |a|
  {
    if a == [] && b == [] then 0
    else if a == [] then -1
    else if b == [] then 1
    else if a[0] < b[0] then -1
    else if a[0] > b[0] then 1
    else StrCmp(a[1..], b[1..])
  }
}
