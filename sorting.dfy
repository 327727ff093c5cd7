/** The comparators and the list sorts of src/main.c (compare,
    compare_addresses, sortConnections, sortInterfaces, sortAddresses).

    The C helpers copy the list into an array of pointers, qsort it with the
    comparator, and relink the nodes in array order. qsort's algorithm is
    not specified by C; the model sorts the array in place by insertion,
    which is one admissible qsort. The result is a permutation, which any
    sort gives, and it is fully ordered when no key is 0, where the
    comparator is a total order. That every adjacent pair is in order in
    general is a property of the insertion sort: a zero key makes the
    comparator intransitive, and qsort's result is then unspecified. */
module Sorting {
  import opened Types

  // ---------------------------------------------------------------------
  // Comparators

  /** The numeric key of a connection for a numeric sort field, as the
      uint32_t v1/v2 of compare. Fields without a numeric key give 0. */
  function SortKey(field: SortField, c: Connection): (k: nat)
    ensures k < TWO32
  {
    match field
    case SortSum => U32(c.bpsSum)
    case SortAge => U32(c.delta)
    case SortId => U32(c.id)
    case SortRx => U32(c.bpsRx)
    case SortTx => U32(c.bpsTx)
    case SortSport => U32(c.local.sport)
    case SortDport => U32(c.local.dport)
    case SortProto => U32(c.l4)
    case _ => 0
  }

  predicate NumericField(field: SortField)
  {
    field in {SortSum, SortAge, SortId, SortRx, SortTx, SortSport, SortDport, SortProto}
  }

  /** compare for connections: IN and OUT compare the interface names, with
      the arguments swapped when ascending; numeric fields compare their
      keys, a zero key on either side meaning equal, the larger key first
      unless ascending; the default field compares equal. What the result
      means is stated in CompareRules and ConnectionsAntisymmetric. */
  function CompareConnections(cfg: Config, a: Connection, b: Connection): (r: int)
    ensures r == -1 || r == 0 || r == 1
  {
    match cfg.sortField
    case SortIn =>
      if cfg.sortAsc then StrCmp(b.netIn.name, a.netIn.name) else StrCmp(a.netIn.name, b.netIn.name)
    case SortOut =>
      if cfg.sortAsc then StrCmp(b.netOut.name, a.netOut.name) else StrCmp(a.netOut.name, b.netOut.name)
    case SortNone => 0
    case _ =>
      var v1 := SortKey(cfg.sortField, a);
      var v2 := SortKey(cfg.sortField, b);
      if v1 == 0 || v2 == 0 then 0
      else if v1 > v2 then (if cfg.sortAsc then 1 else -1)
      else if v1 < v2 then (if cfg.sortAsc then -1 else 1)
      else 0
  }

  /** compare in device-only mode: interface names, swapped when
      ascending, whatever the sort field. The sign is strcmp's; see
      StrCmpAntisymmetric. */
  function CompareInterfaces(cfg: Config, a: Interface, b: Interface): (r: int)
    ensures r == -1 || r == 0 || r == 1
  {
    if cfg.sortAsc then StrCmp(b.name, a.name) else StrCmp(a.name, b.name)
  }

  /** compare_addresses: the address texts, with strcmp's sign (see
      StrCmpAntisymmetric). */
  function CompareAddresses(a: Address, b: Address): (r: int)
    ensures r == -1 || r == 0 || r == 1
  {
    StrCmp(a.ip, b.ip)
  }

  /** strcmp is antisymmetric, and 0 only on equal strings. */
  lemma {:induction false} StrCmpAntisymmetric(a: string, b: string)
    ensures StrCmp(a, b) == -StrCmp(b, a)
    ensures StrCmp(a, b) == 0 <==> a == b
    decreases |a|
  {
    if a != [] && b != [] && a[0] == b[0] {
      StrCmpAntisymmetric(a[1..], b[1..]);
      if a[1..] == b[1..] {
        assert a == [a[0]] + a[1..] && b == [b[0]] + b[1..];
      }
    }
  }

  lemma ConnectionsAntisymmetric(cfg: Config, a: Connection, b: Connection)
    ensures CompareConnections(cfg, a, b) == -CompareConnections(cfg, b, a)
  {
    StrCmpAntisymmetric(a.netIn.name, b.netIn.name);
    StrCmpAntisymmetric(a.netOut.name, b.netOut.name);
  }

  /** The comparator's rules: a zero key compares equal to anything; in the
      default descending order the larger key sorts first; ascending order
      negates every comparison, including the swapped string ones. */
  lemma CompareRules(cfg: Config, a: Connection, b: Connection)
    ensures NumericField(cfg.sortField) && (SortKey(cfg.sortField, a) == 0 || SortKey(cfg.sortField, b) == 0)
      ==> CompareConnections(cfg, a, b) == 0
    ensures NumericField(cfg.sortField) && !cfg.sortAsc && SortKey(cfg.sortField, a) > SortKey(cfg.sortField, b) > 0
      ==> CompareConnections(cfg, a, b) == -1
    ensures CompareConnections(cfg.(sortAsc := !cfg.sortAsc), a, b) == -CompareConnections(cfg, a, b)
    ensures cfg.sortField == SortNone ==> CompareConnections(cfg, a, b) == 0
  {
    StrCmpAntisymmetric(a.netIn.name, b.netIn.name);
    StrCmpAntisymmetric(a.netOut.name, b.netOut.name);
  }

  /** Keys wider than 32 bits are compared after truncation: a rate of
      2^32 + 1 sorts like 1. */
  lemma KeysTruncated(cfg: Config, a: Connection, b: Connection)
    requires cfg.sortField == SortSum && !cfg.sortAsc
    requires a.bpsSum == TWO32 + 1 && b.bpsSum == 2
    ensures CompareConnections(cfg, a, b) == 1
  {
  }

  /** "Compares equal" is not transitive under the zero rule: with keys 5,
      0 and 3 the middle one equals both ends, which do not equal each
      other. */
  lemma ZeroKeyNotTransitive(cfg: Config, a: Connection, z: Connection, b: Connection)
    requires cfg.sortField == SortSum && !cfg.sortAsc
    requires a.bpsSum == 5 && z.bpsSum == 0 && b.bpsSum == 3
    ensures CompareConnections(cfg, a, z) == 0 && CompareConnections(cfg, z, b) == 0
    ensures CompareConnections(cfg, a, b) == -1
  {
  }

  // ---------------------------------------------------------------------
  // Sorting

  /** Insert `x` into `s` from the right: it moves left past every element
      that compares greater than it. */
  function Insert<T>(s: seq<T>, x: T, cmp: (T, T) -> int): (r: seq<T>)
    ensures |r| == |s| + 1
    decreases |s|
  {
    if s == [] then [x]
    else if cmp(s[|s| - 1], x) > 0 then Insert(s[..|s| - 1], x, cmp) + [s[|s| - 1]]
    else s + [x]
  }

  function InsertionSort<T>(s: seq<T>, cmp: (T, T) -> int): (r: seq<T>)
    ensures |r| == |s|
    decreases |s|
  {
    if s == [] then [] else Insert(InsertionSort(s[..|s| - 1], cmp), s[|s| - 1], cmp)
  }

  ghost predicate Antisymmetric<T(!new)>(cmp: (T, T) -> int)
  {
    forall a, b :: cmp(a, b) == -cmp(b, a)
  }

  /** No adjacent pair is out of order. */
  ghost predicate AdjacentOrdered<T>(s: seq<T>, cmp: (T, T) -> int)
  {
    forall i :: 0 <= i < |s| - 1 ==> cmp(s[i], s[i + 1]) <= 0
  }

  /** No pair at all is out of order. */
  ghost predicate Sorted<T>(s: seq<T>, cmp: (T, T) -> int)
  {
    forall i, j :: 0 <= i < j < |s| ==> cmp(s[i], s[j]) <= 0
  }

  lemma {:induction false} InsertPermutes<T>(s: seq<T>, x: T, cmp: (T, T) -> int)
    ensures multiset(Insert(s, x, cmp)) == multiset(s) + multiset{x}
    decreases |s|
  {
    if s != [] && cmp(s[|s| - 1], x) > 0 {
      InsertPermutes(s[..|s| - 1], x, cmp);
      assert s == s[..|s| - 1] + [s[|s| - 1]];
    }
  }

  /** The sort returns a permutation of its input. */
  lemma {:induction false} SortPermutes<T>(s: seq<T>, cmp: (T, T) -> int)
    ensures multiset(InsertionSort(s, cmp)) == multiset(s)
    decreases |s|
  {
    if s != [] {
      SortPermutes(s[..|s| - 1], cmp);
      InsertPermutes(InsertionSort(s[..|s| - 1], cmp), s[|s| - 1], cmp);
      assert s == s[..|s| - 1] + [s[|s| - 1]];
    }
  }

  /** The element just before the inserted one, if any, compares at most
      equal to it; the first element of the result is either `x` or the
      first element of `s`. */
  lemma {:induction false} InsertKeepsOrder<T(!new)>(s: seq<T>, x: T, cmp: (T, T) -> int)
    requires Antisymmetric(cmp) && AdjacentOrdered(s, cmp)
    ensures AdjacentOrdered(Insert(s, x, cmp), cmp)
    ensures s != [] ==> Insert(s, x, cmp)[0] == x || Insert(s, x, cmp)[0] == s[0]
    decreases |s|
  {
    if s != [] && cmp(s[|s| - 1], x) > 0 {
      var p := s[..|s| - 1];
      var last := s[|s| - 1];
      assert AdjacentOrdered(p, cmp) by {
        forall i | 0 <= i < |p| - 1 ensures cmp(p[i], p[i + 1]) <= 0 {
          assert p[i] == s[i] && p[i + 1] == s[i + 1];
        }
      }
      InsertKeepsOrder(p, x, cmp);
      var q := Insert(p, x, cmp);
      var r := q + [last];
      // The element before `last` in r is either x or the old
      // predecessor of `last` in s.
      assert cmp(r[|r| - 2], last) <= 0 by {
        if p == [] {
          assert r[|r| - 2] == x;
          assert cmp(last, x) > 0;
        } else {
          InsertLast(p, x, cmp);
          if q[|q| - 1] == x {
            assert cmp(last, x) > 0;
          } else {
            assert q[|q| - 1] == p[|p| - 1] == s[|s| - 2];
          }
        }
      }
      forall i | 0 <= i < |r| - 1 ensures cmp(r[i], r[i + 1]) <= 0 {
        if i < |r| - 2 {
          assert r[i] == q[i] && r[i + 1] == q[i + 1];
        }
      }
    } else if s != [] {
      var r := s + [x];
      forall i | 0 <= i < |r| - 1 ensures cmp(r[i], r[i + 1]) <= 0 {
        if i < |s| - 1 {
          assert r[i] == s[i] && r[i + 1] == s[i + 1];
        }
      }
    }
  }

  /** The last element of an insertion is `x` or the last element of `s`. */
  lemma {:induction false} InsertLast<T>(s: seq<T>, x: T, cmp: (T, T) -> int)
    requires s != []
    ensures Insert(s, x, cmp)[|s|] == x || Insert(s, x, cmp)[|s|] == s[|s| - 1]
  {
  }

  /** Under an antisymmetric comparator the result has no adjacent pair out
      of order. */
  lemma {:induction false} SortAdjacentOrdered<T(!new)>(s: seq<T>, cmp: (T, T) -> int)
    requires Antisymmetric(cmp)
    ensures AdjacentOrdered(InsertionSort(s, cmp), cmp)
    decreases |s|
  {
    if s != [] {
      SortAdjacentOrdered(s[..|s| - 1], cmp);
      InsertKeepsOrder(InsertionSort(s[..|s| - 1], cmp), s[|s| - 1], cmp);
    }
  }

  /** When "at most equal" is transitive on the elements, adjacent order is
      full order. */
  lemma {:induction false} AdjacentToSorted<T>(s: seq<T>, cmp: (T, T) -> int)
    requires AdjacentOrdered(s, cmp)
    requires forall i, j, k ::
      (0 <= i < |s| && 0 <= j < |s| && 0 <= k < |s| && cmp(s[i], s[j]) <= 0 && cmp(s[j], s[k]) <= 0)
      ==> cmp(s[i], s[k]) <= 0
    ensures Sorted(s, cmp)
  {
    forall i, j | 0 <= i < j < |s| ensures cmp(s[i], s[j]) <= 0 {
      var k := i;
      while k < j
        invariant i <= k <= j
        invariant k == i || cmp(s[i], s[k]) <= 0
      {
        if k > i {
          assert cmp(s[k], s[k + 1]) <= 0;
        }
        k := k + 1;
      }
    }
  }

  /** One pass of the insertion sort: a[i] moves left into the sorted
      prefix a[..i]; the slots after i are untouched. */
  method InsertAt<T>(a: array<T>, i: int, cmp: (T, T) -> int)
    requires 0 <= i < a.Length
    modifies a
    ensures a[..i + 1] == Insert(old(a[..i]), old(a[i]), cmp)
    ensures a[i + 1..] == old(a[i + 1..])
  {
    var x := a[i];
    ghost var p := a[..i];
    ghost var tail := a[i + 1..];
    var j := ShiftRight(a, i, x, cmp);
    InsertSplit(p, j, x, cmp);
    a[j] := x;
    ghost var r := p[..j] + [x] + p[j..];
    forall k | 0 <= k <= i
      ensures a[k] == r[k]
    {
      if k > j {
        assert r[k] == p[k - 1];
      }
    }
    assert a[..i + 1] == r;
    forall k | i < k < a.Length
      ensures a[k] == tail[k - i - 1]
    {
    }
    assert a[i + 1..] == tail;
  }

  /** The inner loop of one pass: the elements of a[..i] that compare
      greater than `x`, from the right, move one slot right, opening the
      slot j where `x` belongs. */
  method ShiftRight<T>(a: array<T>, i: int, x: T, cmp: (T, T) -> int) returns (j: int)
    requires 0 <= i < a.Length
    modifies a
    ensures 0 <= j <= i
    ensures forall k :: 0 <= k < j ==> a[k] == old(a[k])
    ensures forall k :: j < k <= i ==> a[k] == old(a[k - 1])
    ensures forall k :: i < k < a.Length ==> a[k] == old(a[k])
    ensures forall k :: j <= k < i ==> cmp(old(a[k]), x) > 0
    ensures j == 0 || cmp(old(a[j - 1]), x) <= 0
  {
    j := i;
    while j > 0 && cmp(a[j - 1], x) > 0
      invariant 0 <= j <= i
      invariant forall k :: 0 <= k < j ==> a[k] == old(a[k])
      invariant forall k :: j < k <= i ==> a[k] == old(a[k - 1])
      invariant forall k :: i < k < a.Length ==> a[k] == old(a[k])
      invariant forall k :: j <= k < i ==> cmp(old(a[k]), x) > 0
    {
      a[j] := a[j - 1];
      j := j - 1;
    }
  }

  /** When exactly the last i - j elements of `p` compare greater than `x`,
      insertion puts `x` at index j. */
  lemma {:induction false} InsertSplit<T>(p: seq<T>, j: int, x: T, cmp: (T, T) -> int)
    requires 0 <= j <= |p|
    requires forall k :: j <= k < |p| ==> cmp(p[k], x) > 0
    requires j == 0 || cmp(p[j - 1], x) <= 0
    ensures Insert(p, x, cmp) == p[..j] + [x] + p[j..]
    decreases |p|
  {
    if |p| == j {
      assert p[..j] == p && p[j..] == [];
    } else {
      var q := p[..|p| - 1];
      assert q[..j] == p[..j];
      InsertSplit(q, j, x, cmp);
      assert p[j..] == q[j..] + [p[|p| - 1]];
    }
  }

  /** In-place insertion sort of the pointer array. */
  method SortInPlace<T>(a: array<T>, cmp: (T, T) -> int)
    modifies a
    ensures a[..] == InsertionSort(old(a[..]), cmp)
  {
    ghost var orig := a[..];
    for i := 0 to a.Length
      invariant a[..i] == InsertionSort(orig[..i], cmp)
      invariant a[i..] == orig[i..]
    {
      assert orig[..i + 1][..i] == orig[..i];
      InsertAt(a, i, cmp);
    }
    assert orig[..a.Length] == orig;
  }

  // ---------------------------------------------------------------------
  // The three list sorts

  function ConnectionOrder(cfg: Config): (Connection, Connection) -> int
  {
    (a, b) => CompareConnections(cfg, a, b)
  }

  function InterfaceOrder(cfg: Config): (Interface, Interface) -> int
  {
    (a, b) => CompareInterfaces(cfg, a, b)
  }

  function AddressOrder(): (Address, Address) -> int
  {
    (a, b) => CompareAddresses(a, b)
  }

  /** sortConnections: the list must have a node (the C code reads the
      first array slot unconditionally). */
  method SortConnections(list: seq<Connection>, cfg: Config) returns (r: seq<Connection>)
    requires |list| >= 1
    ensures r == InsertionSort(list, ConnectionOrder(cfg))
  {
    var arr := new Connection[|list|](i requires 0 <= i < |list| => list[i]);
    assert arr[..] == list;
    SortInPlace(arr, ConnectionOrder(cfg));
    r := arr[..];
  }

  /** sortAddresses */
  method SortAddresses(list: seq<Address>) returns (r: seq<Address>)
    requires |list| >= 1
    ensures r == InsertionSort(list, AddressOrder())
  {
    var arr := new Address[|list|](i requires 0 <= i < |list| => list[i]);
    assert arr[..] == list;
    SortInPlace(arr, AddressOrder());
    r := arr[..];
  }

  /** Each interface with its address list sorted. */
  function WithSortedAddresses(devs: seq<Interface>): (r: seq<Interface>)
    ensures |r| == |devs|
    ensures forall i :: 0 <= i < |r| ==>
      r[i] == devs[i].(addresses := InsertionSort(devs[i].addresses, AddressOrder()))
  {
    seq(|devs|, i requires 0 <= i < |devs| => devs[i].(addresses := InsertionSort(devs[i].addresses, AddressOrder())))
  }

  /** sortInterfaces: sorts every interface's addresses while filling the
      array, then the interfaces. Each list must be non-empty. */
  method SortInterfaces(devs: seq<Interface>, cfg: Config) returns (r: seq<Interface>)
    requires |devs| >= 1
    requires forall i :: 0 <= i < |devs| ==> |devs[i].addresses| >= 1
    ensures r == InsertionSort(WithSortedAddresses(devs), InterfaceOrder(cfg))
  {
    var arr := new Interface[|devs|](i requires 0 <= i < |devs| => devs[i]);
    for i := 0 to arr.Length
      invariant arr[..i] == WithSortedAddresses(devs)[..i]
      invariant arr[i..] == devs[i..]
    {
      var sorted := SortAddresses(arr[i].addresses);
      arr[i] := arr[i].(addresses := sorted);
    }
    assert arr[..] == WithSortedAddresses(devs);
    SortInPlace(arr, InterfaceOrder(cfg));
    r := arr[..];
  }

  // ---------------------------------------------------------------------
  // What the sorts guarantee

  /** Sorting connections keeps exactly the same records, and leaves no
      adjacent pair out of order. */
  lemma ConnectionSortResult(list: seq<Connection>, cfg: Config)
    ensures multiset(InsertionSort(list, ConnectionOrder(cfg))) == multiset(list)
    ensures AdjacentOrdered(InsertionSort(list, ConnectionOrder(cfg)), ConnectionOrder(cfg))
  {
    SortPermutes(list, ConnectionOrder(cfg));
    forall a, b ensures ConnectionOrder(cfg)(a, b) == -ConnectionOrder(cfg)(b, a) {
      ConnectionsAntisymmetric(cfg, a, b);
    }
    SortAdjacentOrdered(list, ConnectionOrder(cfg));
  }

  /** With a numeric field, descending order, and no zero key (none of the
      keys truncated to 32 bits is 0), the result is ordered by key from
      largest to smallest. */
  lemma DescendingByKey(list: seq<Connection>, cfg: Config)
    requires NumericField(cfg.sortField) && !cfg.sortAsc
    requires forall i :: 0 <= i < |list| ==> SortKey(cfg.sortField, list[i]) != 0
    ensures var r := InsertionSort(list, ConnectionOrder(cfg));
      forall i, j :: 0 <= i < j < |r| ==> SortKey(cfg.sortField, r[i]) >= SortKey(cfg.sortField, r[j])
  {
    var cmp := ConnectionOrder(cfg);
    var r := InsertionSort(list, cmp);
    ConnectionSortResult(list, cfg);
    KeysKept(list, r, cfg.sortField);
    forall i, j | 0 <= i < |r| && 0 <= j < |r|
      ensures cmp(r[i], r[j]) <= 0 <==> SortKey(cfg.sortField, r[i]) >= SortKey(cfg.sortField, r[j])
    {
      KeyOrder(cfg, r[i], r[j]);
    }
    AdjacentToSorted(r, cmp);
  }

  /** A permutation of a list with no zero key has no zero key. */
  lemma KeysKept(list: seq<Connection>, r: seq<Connection>, field: SortField)
    requires multiset(r) == multiset(list)
    requires forall i :: 0 <= i < |list| ==> SortKey(field, list[i]) != 0
    ensures forall i :: 0 <= i < |r| ==> SortKey(field, r[i]) != 0
  {
    forall i | 0 <= i < |r|
      ensures SortKey(field, r[i]) != 0
    {
      assert r[i] in multiset(r);
      assert r[i] in multiset(list);
      var k :| 0 <= k < |list| && list[k] == r[i];
    }
  }

  /** Descending by a numeric field, two connections with non-zero keys are
      in order exactly when the first key is at least the second. */
  lemma KeyOrder(cfg: Config, a: Connection, b: Connection)
    requires NumericField(cfg.sortField) && !cfg.sortAsc
    requires SortKey(cfg.sortField, a) != 0 && SortKey(cfg.sortField, b) != 0
    ensures CompareConnections(cfg, a, b) <= 0 <==> SortKey(cfg.sortField, a) >= SortKey(cfg.sortField, b)
  {
  }

  /** Sorting interfaces keeps the same interfaces, each with a permutation
      of its addresses in adjacent order. */
  lemma InterfaceSortResult(devs: seq<Interface>, cfg: Config)
    ensures multiset(InsertionSort(WithSortedAddresses(devs), InterfaceOrder(cfg))) == multiset(WithSortedAddresses(devs))
    ensures AdjacentOrdered(InsertionSort(WithSortedAddresses(devs), InterfaceOrder(cfg)), InterfaceOrder(cfg))
    ensures forall i :: 0 <= i < |devs| ==>
      multiset(WithSortedAddresses(devs)[i].addresses) == multiset(devs[i].addresses) &&
      AdjacentOrdered(WithSortedAddresses(devs)[i].addresses, AddressOrder())
  {
    var w := WithSortedAddresses(devs);
    SortPermutes(w, InterfaceOrder(cfg));
    forall a, b ensures InterfaceOrder(cfg)(a, b) == -InterfaceOrder(cfg)(b, a) {
      StrCmpAntisymmetric(a.name, b.name);
    }
    SortAdjacentOrdered(w, InterfaceOrder(cfg));
    forall a, b ensures AddressOrder()(a, b) == -AddressOrder()(b, a) {
      StrCmpAntisymmetric(a.ip, b.ip);
    }
    forall i | 0 <= i < |devs|
      ensures multiset(w[i].addresses) == multiset(devs[i].addresses)
      ensures AdjacentOrdered(w[i].addresses, AddressOrder())
    {
      SortPermutes(devs[i].addresses, AddressOrder());
      SortAdjacentOrdered(devs[i].addresses, AddressOrder());
    }
  }
}
