/** Name mappings of src/util.c: the protocol label of a connection
    (getIPProtocolName), the sort-column indicator (getSortIndicator), and the
    decimal text both of them and the prompts of src/main.c rely on. */
module Names {
  import opened Types

  predicate IsDigit(c: char)
  {
    '0' <= c <= '9'
  }

  predicate AllDigits(s: string)
  {
    forall i :: 0 <= i < |s| ==> IsDigit(s[i])
  }

  /** The value of a string of decimal digits (the empty string is 0, as
      atoi gives). */
  function DecimalValue(s: string): (v: nat)
    requires AllDigits(s)
    decreases |s|
  {
    if s == [] then 0
    else DecimalValue(s[..|s| - 1]) * 10 + (s[|s| - 1] as int - '0' as int)
  }

  function DigitChar(d: nat): (c: char)
    requires d < 10
    ensures IsDigit(c) && c as int - '0' as int == d
  {
    (d + '0' as int) as char
  }

  /** printf("%u", n) */
  function NatToString(n: nat): (s: string)
    ensures |s| >= 1 && AllDigits(s)
    ensures n < 10 <==> |s| == 1
    decreases n
  {
    if n < 10 then [DigitChar(n)] else NatToString(n / 10) + [DigitChar(n % 10)]
  }

  /** Decimal printing and reading are inverse: the digits printf writes for
      a protocol number or a typed value read back as that number. */
  lemma {:induction false} DecimalRoundTrip(n: nat)
    ensures DecimalValue(NatToString(n)) == n
    decreases n
  {
    if n >= 10 {
      var s := NatToString(n);
      assert s[..|s| - 1] == NatToString(n / 10);
      DecimalRoundTrip(n / 10);
    }
  }

  /** Protocols getIPProtocolName has a name for. */
  predicate NamedProtocol(proto: int)
  {
    proto in {IPPROTO_TCP, IPPROTO_ICMP, IPPROTO_ICMPV6, IPPROTO_IGMP, IPPROTO_UDP,
              IPPROTO_UDPLITE, IPPROTO_IPV6, 89, 112}
  }

  /** The label before the IPv6 suffix. */
  function ProtocolBase(proto: int): (s: string)
    requires 0 <= proto < 256
    ensures proto == IPPROTO_TCP ==> s == "tcp"
    ensures proto == IPPROTO_ICMP || proto == IPPROTO_ICMPV6 ==> s == "icmp"
    ensures proto == IPPROTO_IGMP ==> s == "igmp"
    ensures proto == IPPROTO_UDP || proto == IPPROTO_UDPLITE ==> s == "udp"
    ensures proto == IPPROTO_IPV6 ==> s == "ipv6"
    ensures proto == 89 ==> s == "ospf"
    ensures proto == 112 ==> s == "vrrp"
    ensures !NamedProtocol(proto) ==> AllDigits(s) && DecimalValue(s) == proto
    ensures |s| >= 1 && s[|s| - 1] != '\0'
  {
    if proto == IPPROTO_TCP then "tcp"
    else if proto == IPPROTO_ICMP || proto == IPPROTO_ICMPV6 then "icmp"
    else if proto == IPPROTO_IGMP then "igmp"
    else if proto == IPPROTO_UDP || proto == IPPROTO_UDPLITE then "udp"
    else if proto == IPPROTO_IPV6 then "ipv6"
    else if proto == 89 then "ospf"
    else if proto == 112 then "vrrp"
    else
      DecimalRoundTrip(proto);
      NatToString(proto)
  }

  /** The label tells the protocol back: a named protocol's label is not a
      number, and a number label belongs to that protocol alone. */
  lemma LabelIdentifiesProtocol(p: int, q: int)
    requires 0 <= p < 256 && 0 <= q < 256
    ensures NamedProtocol(p) <==> !AllDigits(ProtocolBase(p))
    ensures !NamedProtocol(p) && ProtocolBase(q) == ProtocolBase(p) ==> q == p
  {
    if NamedProtocol(p) {
      assert !IsDigit(ProtocolBase(p)[0]);
    }
    if NamedProtocol(q) {
      assert !IsDigit(ProtocolBase(q)[0]);
    }
  }

  /** getIPProtocolName: the label, followed by "6" exactly when the flow is
      IPv6. For other families the C code formats the character '\0', which
      ends the string, so nothing is appended. */
  function IPProtocolName(l3: int, proto: int): (r: string)
    requires 0 <= proto < 256
    ensures l3 == AF_INET6 ==> |r| >= 2 && r[..|r| - 1] == ProtocolBase(proto) && r[|r| - 1] == '6'
    ensures l3 != AF_INET6 ==> r == ProtocolBase(proto)
    ensures proto == IPPROTO_TCP ==> r == if l3 == AF_INET6 then "tcp6" else "tcp"
  {
    ProtocolBase(proto) + (if l3 == AF_INET6 then "6" else "")
  }

  /** getSortIndicator: a marker on the column the output is sorted by; "^"
      for the default descending order, U+2C7D for ascending. */
  function SortIndicator(cfg: Config, field: SortField): (r: string)
    ensures r != "" <==> cfg.sortField == field
    ensures r != "" ==> (r == "^" <==> !cfg.sortAsc)
  {
    if cfg.sortField == field then (if cfg.sortAsc then "ⱽ" else "^") else ""
  }
}
