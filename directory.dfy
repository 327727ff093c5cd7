/** The interface/address directory of src/util.c: building the interface
    list from the enumerated addresses (add_interface, add_address,
    enumerateNetworkDevices), appending connections (add_ct), and the three
    searches the engine runs against it (subnet_match, isLocalAddress,
    getIfaceNameForAddr). */
module Directory {
  import opened Types

  // ---------------------------------------------------------------------
  // subnet_match

  /** Number of address bytes compared: 4 for AF_INET, 16 for anything else. */
  function ByteWidth(family: int): (n: nat)
    ensures n == 4 || n == 16
  {
    if family == AF_INET then 4 else 16
  }

  /** The two addresses agree on every bit the netmask keeps. */
  predicate SameSubnet(family: int, a1: Bytes16, a2: Bytes16, mask: Bytes16)
  {
    forall i :: 0 <= i < ByteWidth(family) ==> a1[i] & mask[i] == a2[i] & mask[i]
  }

  /** subnet_match: 0 when the masked addresses agree byte by byte over the
      family's width, 1 otherwise. */
  method SubnetMatch(family: int, a1: Bytes16, a2: Bytes16, mask: Bytes16) returns (r: int)
    ensures r == 0 || r == 1
    ensures r == 0 <==> SameSubnet(family, a1, a2, mask)
  {
    var n := if family == AF_INET then 4 else 16;
    for i := 0 to n
      invariant forall k :: 0 <= k < i ==> a1[k] & mask[k] == a2[k] & mask[k]
    {
      if a1[i] & mask[i] != a2[i] & mask[i] {
        return 1;
      }
    }
    return 0;
  }

  // ---------------------------------------------------------------------
  // isLocalAddress

  /** Some address of some interface is textually `addr`. */
  ghost predicate Owned(addr: string, devs: seq<Interface>)
  {
    exists i, k :: 0 <= i < |devs| && 0 <= k < |devs[i].addresses| && devs[i].addresses[k].ip == addr
  }

  /** isLocalAddress: true exactly when an address of an interface is the
      same string; no subnet test. */
  function IsLocalAddress(addr: string, devs: seq<Interface>): (b: bool)
    ensures b <==> Owned(addr, devs)
    decreases |devs|
  {
    if devs == [] then false
    else if exists k :: 0 <= k < |devs[0].addresses| && devs[0].addresses[k].ip == addr then true
    else
      var b := IsLocalAddress(addr, devs[1..]);
      assert Owned(addr, devs) ==> Owned(addr, devs[1..]) by {
        if Owned(addr, devs) {
          var i, k :| 0 <= i < |devs| && 0 <= k < |devs[i].addresses| && devs[i].addresses[k].ip == addr;
          assert i > 0 && devs[1..][i - 1] == devs[i];
        }
      }
      assert Owned(addr, devs[1..]) ==> Owned(addr, devs) by {
        if Owned(addr, devs[1..]) {
          var i, k :| 0 <= i < |devs[1..]| && 0 <= k < |devs[1..][i].addresses| && devs[1..][i].addresses[k].ip == addr;
          assert devs[i + 1] == devs[1..][i];
        }
      }
      b
  }

  // ---------------------------------------------------------------------
  // getIfaceNameForAddr

  /** One address of an interface answers for `text`: it is the same string,
      or it has the same family and `check` (the binary form of `text`) lies
      in its subnet. */
  predicate AddrMatches(a: Address, text: string, family: int, check: Bytes16)
  {
    text == a.ip || (a.family == family && SameSubnet(family, a.addr, check, a.mask))
  }

  predicate HasMatch(d: Interface, text: string, family: int, check: Bytes16)
  {
    exists k :: 0 <= k < |d.addresses| && AddrMatches(d.addresses[k], text, family, check)
  }

  /** Position of the first interface, in list order, with an address that
      answers for `text`. */
  function FirstIface(devs: seq<Interface>, text: string, family: int, check: Bytes16): (r: Option<nat>)
    ensures r.Some? ==> r.value < |devs| && HasMatch(devs[r.value], text, family, check)
    ensures r.Some? ==> forall j :: 0 <= j < r.value ==> !HasMatch(devs[j], text, family, check)
    ensures r.None? <==> forall j :: 0 <= j < |devs| ==> !HasMatch(devs[j], text, family, check)
    decreases |devs|
  {
    if devs == [] then None
    else if HasMatch(devs[0], text, family, check) then Some(0)
    else
      match FirstIface(devs[1..], text, family, check)
      case None =>
        assert forall j :: 1 <= j < |devs| ==> devs[j] == devs[1..][j - 1];
        None
      case Some(k) =>
        assert forall j :: 1 <= j < |devs| ==> devs[j] == devs[1..][j - 1];
        Some(k + 1)
  }

  /** getIfaceNameForAddr: walks the interfaces in order and, within each,
      its addresses in order; the first address that is the same string or
      subnet-matches the parsed input selects its interface. Returns the
      interface's position (the C code returns a pointer to it), or None
      for NULL. `pton` stands for inet_pton. */
  method IfaceForAddr(text: string, family: int, devs: seq<Interface>, pton: (int, string) -> Bytes16)
    returns (r: Option<nat>)
    ensures r == FirstIface(devs, text, family, pton(family, text))
  {
    var check := pton(family, text);
    var i := 0;
    while i < |devs|
      invariant 0 <= i <= |devs|
      invariant forall j :: 0 <= j < i ==> !HasMatch(devs[j], text, family, check)
    {
      var addrs := devs[i].addresses;
      var k := 0;
      while k < |addrs|
        invariant 0 <= k <= |addrs|
        invariant forall q :: 0 <= q < k ==> !AddrMatches(addrs[q], text, family, check)
      {
        if text == addrs[k].ip {
          return Some(i);
        }
        if addrs[k].family == family {
          var m := SubnetMatch(family, addrs[k].addr, check, addrs[k].mask);
          if m == 0 {
            return Some(i);
          }
        }
        k := k + 1;
      }
      i := i + 1;
    }
    return None;
  }

  /** An address the machine owns (isLocalAddress) always resolves to an
      interface, and never to one after the first interface owning it. */
  lemma {:induction false} LocalAddressResolves(addr: string, family: int, check: Bytes16, devs: seq<Interface>, i: nat, k: nat)
    requires i < |devs| && k < |devs[i].addresses| && devs[i].addresses[k].ip == addr
    ensures IsLocalAddress(addr, devs)
    ensures FirstIface(devs, addr, family, check).Some?
    ensures FirstIface(devs, addr, family, check).value <= i
  {
    assert AddrMatches(devs[i].addresses[k], addr, family, check);
    assert HasMatch(devs[i], addr, family, check);
  }

  /** Exact-before-subnet holds per address, not across the list: an
      interface with only a subnet match that comes first wins over a later
      interface that owns the very same address string. */
  lemma SubnetBeforeLaterExact(text: string, family: int, check: Bytes16, a: Address, b: Address, x: Interface, y: Interface)
    requires x.addresses == [a] && y.addresses == [b]
    requires a.family == family && SameSubnet(family, a.addr, check, a.mask) && a.ip != text
    requires b.ip == text
    ensures FirstIface([x, y], text, family, check) == Some(0)
  {
    assert AddrMatches(x.addresses[0], text, family, check);
  }

  /** 10.0.0.5 is not an address of eth0 but lies in eth0's 10.0.0.1/24, so
      it resolves to eth0 while isLocalAddress says it is not local. */
  lemma SubnetResolvesUnownedAddress()
    ensures var eth0 := Interface("eth0", 0, 1, 0, 0, 0,
              [Address("10.0.0.1", "255.255.255.0", AF_INET,
                       [10, 0, 0, 1, 0, 0, 0, 0, 0, 0, 0, 0, 0, 0, 0, 0],
                       [255, 255, 255, 0, 0, 0, 0, 0, 0, 0, 0, 0, 0, 0, 0, 0], 0, 0, 0)]);
            FirstIface([eth0], "10.0.0.5", AF_INET,
                       [10, 0, 0, 5, 0, 0, 0, 0, 0, 0, 0, 0, 0, 0, 0, 0]) == Some(0)
            && !IsLocalAddress("10.0.0.5", [eth0])
  {
    var a := Address("10.0.0.1", "255.255.255.0", AF_INET,
                     [10, 0, 0, 1, 0, 0, 0, 0, 0, 0, 0, 0, 0, 0, 0, 0],
                     [255, 255, 255, 0, 0, 0, 0, 0, 0, 0, 0, 0, 0, 0, 0, 0], 0, 0, 0);
    var check: Bytes16 := [10, 0, 0, 5, 0, 0, 0, 0, 0, 0, 0, 0, 0, 0, 0, 0];
    SlashTwentyFour();
    var eth0 := Interface("eth0", 0, 1, 0, 0, 0, [a]);
    assert "10.0.0.5" != "10.0.0.1" by { assert "10.0.0.5"[7] != "10.0.0.1"[7]; }
    MatchOnly(eth0, a, "10.0.0.5", check);
  }

  /** 10.0.0.1 and 10.0.0.5 agree under 255.255.255.0. */
  lemma SlashTwentyFour()
    ensures SameSubnet(AF_INET, [10, 0, 0, 1, 0, 0, 0, 0, 0, 0, 0, 0, 0, 0, 0, 0],
                       [10, 0, 0, 5, 0, 0, 0, 0, 0, 0, 0, 0, 0, 0, 0, 0],
                       [255, 255, 255, 0, 0, 0, 0, 0, 0, 0, 0, 0, 0, 0, 0, 0])
  {
    var a1: Bytes16 := [10, 0, 0, 1, 0, 0, 0, 0, 0, 0, 0, 0, 0, 0, 0, 0];
    var a2: Bytes16 := [10, 0, 0, 5, 0, 0, 0, 0, 0, 0, 0, 0, 0, 0, 0, 0];
    var m: Bytes16 := [255, 255, 255, 0, 0, 0, 0, 0, 0, 0, 0, 0, 0, 0, 0, 0];
    assert ByteWidth(AF_INET) == 4;
    assert a1[3] & m[3] == 0 == a2[3] & m[3];
  }

  /** A one-address interface whose address is a different string but the
      same subnet: found by the subnet walk, not owned. */
  lemma MatchOnly(d: Interface, a: Address, text: string, check: Bytes16)
    requires d.addresses == [a] && a.family == AF_INET && text != a.ip
    requires SameSubnet(AF_INET, a.addr, check, a.mask)
    ensures FirstIface([d], text, AF_INET, check) == Some(0)
    ensures !IsLocalAddress(text, [d])
  {
    assert AddrMatches(d.addresses[0], text, AF_INET, check);
  }

  // ---------------------------------------------------------------------
  // List building

  /** add_ct: a copy of the connection goes at the tail; the nodes already
      in the list are left as they were. */
  function AddCt(list: seq<Connection>, c: Connection): (r: seq<Connection>)
    ensures |r| == |list| + 1 && r[..|list|] == list && r[|list|] == c
  {
    list + [c]
  }

  /** add_interface: a new zeroed interface, named by the first IFNAMSIZ-1
      characters of `name`, is put at the head of the list. */
  function AddInterface(devs: seq<Interface>, name: string): (r: seq<Interface>)
    ensures |r| == |devs| + 1 && r[1..] == devs
    ensures r[0].name == Take(name, IFNAMSIZ - 1) && r[0].flags == 0
    ensures r[0].nAddresses == 0 && r[0].addresses == []
    ensures r[0].bpsRx == r[0].bpsTx == r[0].bpsSum == 0
  {
    [Interface(Take(name, IFNAMSIZ - 1), 0, 0, 0, 0, 0, [])] + devs
  }

  /** add_address: a new address with zero rates is put at the head of the
      list. The binary address and mask the caller copies in right after
      (enumerateNetworkDevices) are passed here directly. */
  function AddAddress(addrs: seq<Address>, ip: string, netmask: string, family: int, addr: Bytes16, mask: Bytes16)
    : (r: seq<Address>)
    ensures |r| == |addrs| + 1 && r[1..] == addrs
    ensures r[0].ip == ip && r[0].netmask == netmask && r[0].family == family
    ensures r[0].addr == addr && r[0].mask == mask
    ensures r[0].bpsRx == r[0].bpsTx == r[0].bpsSum == 0
  {
    [Address(ip, netmask, family, addr, mask, 0, 0, 0)] + addrs
  }

  // ---------------------------------------------------------------------
  // enumerateNetworkDevices

  /** The address part of one getifaddrs record, with inet_ntop's text. */
  datatype SockAddr = SockAddr(family: int, ipText: string, maskText: string, addr: Bytes16, mask: Bytes16)

  /** One getifaddrs record; `sockaddr` is None when ifa_addr is NULL. */
  datatype IfAddr = IfAddr(name: string, flags: bv32, sockaddr: Option<SockAddr>)

  /** Position of the first interface with this exact name. */
  function FirstNamed(devs: seq<Interface>, name: string): (r: Option<nat>)
    ensures r.Some? ==> r.value < |devs| && devs[r.value].name == name
    ensures r.Some? ==> forall j :: 0 <= j < r.value ==> devs[j].name != name
    ensures r.None? <==> forall j :: 0 <= j < |devs| ==> devs[j].name != name
    decreases |devs|
  {
    if devs == [] then None
    else if devs[0].name == name then Some(0)
    else
      match FirstNamed(devs[1..], name)
      case None =>
        assert forall j :: 1 <= j < |devs| ==> devs[j] == devs[1..][j - 1];
        None
      case Some(k) =>
        assert forall j :: 1 <= j < |devs| ==> devs[j] == devs[1..][j - 1];
        Some(k + 1)
  }

  predicate Enumerated(rec: IfAddr)
  {
    rec.sockaddr.Some? && (rec.sockaddr.value.family == AF_INET || rec.sockaddr.value.family == AF_INET6)
  }

  /** One pass of the enumeration loop: for an AF_INET/AF_INET6 record, find
      the interface by name or prepend a new one, overwrite its flags,
      prepend the address and count it. Other records are skipped. */
  function EnumStep(devs: seq<Interface>, rec: IfAddr): seq<Interface>
  {
    if !Enumerated(rec) then devs
    else
      var devs1 := if FirstNamed(devs, rec.name).Some? then devs else AddInterface(devs, rec.name);
      var idx := if FirstNamed(devs, rec.name).Some? then FirstNamed(devs, rec.name).value else 0;
      var d := devs1[idx];
      var sa := rec.sockaddr.value;
      devs1[idx := d.(flags := rec.flags,
                      addresses := AddAddress(d.addresses, sa.ipText, sa.maskText, sa.family, sa.addr, sa.mask),
                      nAddresses := d.nAddresses + 1)]
  }

  function EnumFold(devs: seq<Interface>, recs: seq<IfAddr>): seq<Interface>
    decreases |recs|
  {
    if recs == [] then devs else EnumStep(EnumFold(devs, recs[..|recs| - 1]), recs[|recs| - 1])
  }

  /** enumerateNetworkDevices over the records getifaddrs returned. */
  method EnumerateNetworkDevices(devs: seq<Interface>, recs: seq<IfAddr>) returns (r: seq<Interface>)
    ensures r == EnumFold(devs, recs)
  {
    r := devs;
    for n := 0 to |recs|
      invariant r == EnumFold(devs, recs[..n])
    {
      assert recs[..n + 1][..n] == recs[..n];
      var rec := recs[n];
      if rec.sockaddr.Some? && (rec.sockaddr.value.family == AF_INET || rec.sockaddr.value.family == AF_INET6) {
        var i := 0;
        while i < |r| && r[i].name != rec.name
          invariant 0 <= i <= |r|
          invariant forall j :: 0 <= j < i ==> r[j].name != rec.name
        {
          i := i + 1;
        }
        if i == |r| {
          r := AddInterface(r, rec.name);
          i := 0;
        }
        var d := r[i];
        var sa := rec.sockaddr.value;
        r := r[i := d.(flags := rec.flags,
                       addresses := AddAddress(d.addresses, sa.ipText, sa.maskText, sa.family, sa.addr, sa.mask),
                       nAddresses := d.nAddresses + 1)];
      }
    }
    assert recs[..|recs|] == recs;
  }

  /** Each enumerated address lands on the interface of its name, which then
      counts exactly one more address and lists the new one first; an
      interface is created only when none had the name. */
  lemma EnumStepAddsOne(devs: seq<Interface>, rec: IfAddr)
    requires Enumerated(rec) && |rec.name| < IFNAMSIZ
    ensures var r := EnumStep(devs, rec);
            var before := FirstNamed(devs, rec.name);
            && |r| == |devs| + (if before.Some? then 0 else 1)
            && FirstNamed(r, rec.name).Some?
            && var d := r[FirstNamed(r, rec.name).value];
               && d.nAddresses == 1 + (if before.Some? then devs[before.value].nAddresses else 0)
               && |d.addresses| >= 1
               && d.addresses[0].ip == rec.sockaddr.value.ipText
               && d.addresses[0].family == rec.sockaddr.value.family
               && d.addresses[0].addr == rec.sockaddr.value.addr
               && d.addresses[0].mask == rec.sockaddr.value.mask
               && d.addresses[1..] == (if before.Some? then devs[before.value].addresses else [])
               && d.flags == rec.flags
  {
    var r := EnumStep(devs, rec);
    var before := FirstNamed(devs, rec.name);
    if before.Some? {
      assert r[before.value].name == rec.name;
      assert forall j :: 0 <= j < before.value ==> r[j] == devs[j];
    } else {
      assert r[0].name == Take(rec.name, IFNAMSIZ - 1) == rec.name;
    }
  }

  /** Nothing else changes in a step: a record that is not an IPv4 or IPv6
      address leaves the list alone; otherwise every interface but the one
      of the record's name is kept, and a newly created one goes in front
      of the old list. */
  lemma EnumStepFrame(devs: seq<Interface>, rec: IfAddr)
    ensures !Enumerated(rec) ==> EnumStep(devs, rec) == devs
    ensures var r := EnumStep(devs, rec);
            var before := FirstNamed(devs, rec.name);
            Enumerated(rec) && before.Some? ==>
              |r| == |devs| && forall j :: 0 <= j < |devs| && j != before.value ==> r[j] == devs[j]
    ensures Enumerated(rec) && FirstNamed(devs, rec.name).None? ==> EnumStep(devs, rec)[1..] == devs
  {
    if Enumerated(rec) && FirstNamed(devs, rec.name).None? {
      var devs1 := AddInterface(devs, rec.name);
      assert EnumStep(devs, rec)[1..] == devs1[1..];
    }
  }
}
