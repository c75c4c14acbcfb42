/** Enumerating a subnet: `hostsInSubnet` of internal/scanner/netinfo.go. */
module Subnet {
  import opened Results
  import opened Bytes
  import opened Addresses

  const WORD := 0x1_0000_0000

  /** `net.IPNet` by the size of its mask; a mask that is no prefix has size (0, 0). */
  datatype IpNet = IpNet(ip: Address, ones: nat, bits: nat)

  predicate ValidNet(n: IpNet) {
    n.ones <= n.bits
  }

  function Pow2(n: nat): (p: nat)
    ensures p >= 1
  {
    if n == 0 then 1 else 2 * Pow2(n - 1)
  }

  lemma {:induction false} Pow2Sum(a: nat, b: nat)
    ensures Pow2(a + b) == Pow2(a) * Pow2(b)
  {
    if a == 0 {
    } else {
      Pow2Sum(a - 1, b);
      var x, y := Pow2(a - 1), Pow2(b);
      assert Pow2(a + b) == 2 * Pow2(a - 1 + b) && Pow2(a) == 2 * x;
      hide Pow2;
      assert 2 * (x * y) == (2 * x) * y;
    }
  }

  lemma Pow2Word()
    ensures Pow2(32) == WORD
  {
    assert Pow2(8) == 0x100;
    Pow2Sum(8, 8);
    Pow2Sum(16, 16);
  }

  /** The number of an IPv4 address. */
  function Number(o: bytes): u32
    requires |o| == 4
  {
    Get32(o, 0)
  }

  lemma NumberPut32(v: u32)
    ensures Number(Put32(v)) == v
  {
    Get32Holds(Put32(v), 0, v);
  }

  lemma Put32Number(o: bytes)
    requires |o| == 4
    ensures Put32(Number(o)) == o
  {
    var hi, lo := Get16(o, 0), Get16(o, 2);
    assert Number(o) / 0x1_0000 == hi && Number(o) % 0x1_0000 == lo;
    assert hi / 0x100 == o[0] && hi % 0x100 == o[1] && lo / 0x100 == o[2] && lo % 0x100 == o[3];
  }

  /** Two addresses share the network part of the mask. */
  predicate SameNet(a: u32, b: u32, total: nat)
    requires total >= 1
  {
    a / total == b / total
  }

  /** The last `32 - ones` bits cleared. */
  function Base(v: u32, total: nat): nat
    requires total >= 1
  {
    v / total * total
  }

  lemma DivMul(a: nat, k: nat, total: nat)
    requires total >= 1
    ensures a / total == k <==> k * total <= a < k * total + total
  {
    var q, r := a / total, a % total;
    assert a == q * total + r;
    if k < q {
      assert (k + 1) * total <= q * total by { MulMono(k + 1, q, total); }
    } else if k > q {
      assert (q + 1) * total <= k * total by { MulMono(q + 1, k, total); }
    }
  }

  lemma MulMono(x: nat, y: nat, total: nat)
    requires x <= y
    ensures x * total <= y * total
  {
    assert y * total == x * total + (y - x) * total;
  }

  /** The block of a prefix starts at its base and ends inside the 32-bit space. */
  lemma BlockFits(v: u32, ones: nat)
    requires ones <= 32
    ensures var total := Pow2(32 - ones);
            Base(v, total) <= v < Base(v, total) + total <= WORD
  {
    Pow2Word();
    hide Pow2;
    var total := Pow2(32 - ones);
    DivMul(v, v / total, total);
    Pow2Sum(ones, 32 - ones);
    var k := v / total;
    if k + 1 > Pow2(ones) {
      MulMono(Pow2(ones), k, total);
    }
    MulMono(k + 1, Pow2(ones), total);
    assert (k + 1) * total == k * total + total;
  }

  /** What the enumeration must contain: the addresses of the subnet, without the first and the
      last of them when the prefix is shorter than 31. */
  predicate IsHost(n: IpNet, a: bytes)
    requires n.ip.V4? && n.ones <= 32 && |a| == 4
  {
    var total := Pow2(32 - n.ones);
    var base := Base(Number(n.ip.octets), total);
    && SameNet(Number(a), Number(n.ip.octets), total)
    && (n.ones < 31 ==> Number(a) != base && Number(a) != base + total - 1)
  }

  lemma IsHostRange(n: IpNet, a: bytes)
    requires n.ip.V4? && n.ones <= 32 && |a| == 4
    ensures var total := Pow2(32 - n.ones);
            var base := Base(Number(n.ip.octets), total);
            IsHost(n, a) <==>
              base <= Number(a) < base + total && (n.ones < 31 ==> Number(a) != base && Number(a) != base + total - 1)
  {
    hide Pow2, Number;
    var total := Pow2(32 - n.ones);
    DivMul(Number(a), Number(n.ip.octets) / total, total);
  }

  /** Whether offset `i` of the block is left out. */
  predicate Skipped(ones: nat, i: int, total: nat) {
    ones < 31 && (i == 0 || i == total - 1)
  }

  /** The first `i` offsets of the block at `base`, without those left out. */
  function HostList(base: nat, ones: nat, total: nat, i: nat): seq<bytes>
    requires base + total <= WORD && i <= total
  {
    if i == 0 then []
    else
      var before := HostList(base, ones, total, i - 1);
      if Skipped(ones, i - 1, total) then before else before + [Put32(base + i - 1)]
  }

  /** `a` is listed in the block after some offset below `i`. */
  predicate Listed(a: bytes, base: nat, ones: nat, total: nat, i: nat) {
    |a| == 4 && base <= Number(a) < base + i && !Skipped(ones, Number(a) - base, total)
  }

  lemma {:induction false} HostListExact(base: nat, ones: nat, total: nat, i: nat, a: bytes)
    requires base + total <= WORD && i <= total
    ensures a in HostList(base, ones, total, i) <==> Listed(a, base, ones, total, i)
  {
    hide Number, Put32, Skipped;
    if i == 0 {
    } else {
      HostListExact(base, ones, total, i - 1, a);
      NumberPut32(base + i - 1);
      if |a| == 4 {
        Put32Number(a);
      }
    }
  }

  /** Four-octet addresses in strictly increasing order. */
  predicate Increasing(out: seq<bytes>) {
    && (forall a :: a in out ==> |a| == 4)
    && (forall j, k :: 0 <= j < k < |out| ==> Number(out[j]) < Number(out[k]))
  }

  lemma {:induction false} HostListIncreasing(base: nat, ones: nat, total: nat, i: nat)
    requires base + total <= WORD && i <= total
    ensures Increasing(HostList(base, ones, total, i))
  {
    hide Number, Put32, Skipped;
    if i == 0 {
    } else {
      HostListIncreasing(base, ones, total, i - 1);
      NumberPut32(base + i - 1);
      var before := HostList(base, ones, total, i - 1);
      forall a | a in before
        ensures |a| == 4 && Number(a) < base + i - 1
      {
        HostListExact(base, ones, total, i - 1, a);
      }
    }
  }

  lemma HostListIsHosts(n: IpNet, a: bytes)
    requires n.ip.V4? && n.ones <= 32
    ensures var total := Pow2(32 - n.ones);
            var base := Base(Number(n.ip.octets), total);
            base + total <= WORD && (a in HostList(base, n.ones, total, total) <==> |a| == 4 && IsHost(n, a))
  {
    hide Pow2, Number, Put32, Base, IsHost, HostList;
    var total := Pow2(32 - n.ones);
    var base := Base(Number(n.ip.octets), total);
    BlockFits(Number(n.ip.octets), n.ones);
    HostListExact(base, n.ones, total, total, a);
    if |a| == 4 {
      IsHostRange(n, a);
    }
  }

  /** `hostsInSubnet` gives up exactly on subnets that are not IPv4 or hold more than `maxHosts`
      hosts; otherwise it lists exactly the hosts of the subnet, in strictly increasing order, and
      its 32-bit sums never wrap. */
  method HostsInSubnet(n: IpNet, maxHosts: int) returns (r: Option<seq<bytes>>)
    requires ValidNet(n)
    ensures r.None? <==> n.bits != 32 || n.ip.V6? || Pow2(32 - n.ones) - 2 > maxHosts
    ensures r.Some? ==> forall a :: a in r.value <==> |a| == 4 && IsHost(n, a)
    ensures r.Some? ==> Increasing(r.value)
  {
    hide Pow2, Number, Put32, Base, IsHost;
    if n.bits != 32 {
      return None;
    }
    var total := Pow2(32 - n.ones);
    if total - 2 > maxHosts {
      return None;
    }
    if n.ip.V6? {
      return None;
    }
    var base32 := Base(Number(n.ip.octets), total);
    BlockFits(Number(n.ip.octets), n.ones);
    var out: seq<bytes> := [];
    for i := 0 to total
      invariant out == HostList(base32, n.ones, total, i)
    {
      if n.ones < 31 && (i == 0 || i == total - 1) {
        continue;
      }
      var v := (base32 + i) % WORD;
      assert v == base32 + i;
      out := out + [Put32(v)];
    }
    HostListIncreasing(base32, n.ones, total, total);
    forall a
      ensures a in out <==> |a| == 4 && IsHost(n, a)
    {
      HostListIsHosts(n, a);
    }
    return Some(out);
  }
}
