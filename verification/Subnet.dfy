/** The subnet arithmetic of the DHCP pool. A shift right by k is division by 2^k, and masking with a
    prefix keeps the quotient by 2^(32 - prefix). */
module Subnet {
  import opened Bytes
  import DhcpLeases

  function Pow2(n: nat): (r: nat)
    ensures r >= 1
  {
    if n == 0 then 1 else 2 * Pow2(n - 1)
  }

  function Quotient(a: nat, d: nat): nat
    requires d > 0
  {
    a / d
  }

  /** Bit p of an address, counted from the most significant one. */
  function Bit(a: Addr, p: nat): nat
    requires p < 32
  {
    (a / Pow2(31 - p)) % 2
  }

  /** The first p bits of an address, as a number. */
  function Top(a: Addr, p: nat): nat
    requires p <= 32
  {
    Quotient(a, Pow2(32 - p))
  }

  /** The address with all bits behind the prefix cleared. */
  function Network(a: Addr, prefix: nat): int
    requires prefix <= 32
  {
    a - a % Pow2(32 - prefix)
  }

  predicate InSubnet(ip: Addr, prefix: int, anchor: Addr) {
    0 <= prefix <= 32 && Network(ip, prefix) == Network(anchor, prefix)
  }

  lemma QuotientLaw(a: nat, d: nat)
    requires d > 0
    ensures a == d * (a / d) + a % d && a % d < d
  {
  }

  lemma AtLeastOnce(d: nat, k: nat)
    requires k >= 1
    ensures d * k >= d
  {
  }

  lemma ProductOrder(d: nat, x: int, y: int)
    requires x < y
    ensures d * x + d <= d * y
  {
    AtLeastOnce(d, y - x);
    assert d * (y - x) == d * y - d * x;
  }

  lemma QuotientOrder(a: nat, b: nat, d: nat)
    requires d > 0 && a <= b
    ensures a / d <= b / d
  {
    QuotientLaw(a, d);
    QuotientLaw(b, d);
    if b / d < a / d {
      ProductOrder(d, b / d, a / d);
    }
  }

  /** Halving the quotient is dividing by twice as much. */
  lemma HalveQuotient(a: nat, d: nat)
    requires d > 0
    ensures (a / d) / 2 == a / (2 * d)
  {
    var q, h := a / d, a / (2 * d);
    QuotientLaw(a, d);
    QuotientLaw(a, 2 * d);
    assert (2 * d) * h == d * (2 * h);
    if q < 2 * h {
      ProductOrder(d, q, 2 * h);
    }
    if q >= 2 * h + 2 {
      ProductOrder(d, 2 * h + 1, q);
    }
  }

  lemma SameNetworkIff(a: Addr, b: Addr, prefix: nat)
    requires prefix <= 32
    ensures Network(a, prefix) == Network(b, prefix) <==> Top(a, prefix) == Top(b, prefix)
  {
    var d := Pow2(32 - prefix);
    QuotientLaw(a, d);
    QuotientLaw(b, d);
    if a / d < b / d {
      ProductOrder(d, a / d, b / d);
    } else if b / d < a / d {
      ProductOrder(d, b / d, a / d);
    }
  }

  /** A longer prefix that two addresses share contains every shorter one. */
  lemma {:induction false} ShorterPrefix(a: Addr, b: Addr, p: nat, q: nat)
    requires p <= q <= 32 && Top(a, q) == Top(b, q)
    ensures Top(a, p) == Top(b, p)
    decreases q - p
  {
    if p < q {
      HalveQuotient(a, Pow2(32 - q));
      HalveQuotient(b, Pow2(32 - q));
      ShorterPrefix(a, b, p, q - 1);
    }
  }

  lemma {:induction false} Pow2Bound()
    ensures Pow2(32) == 0x1_0000_0000
  {
    assert Pow2(8) == 256 by {
      assert Pow2(4) == 16;
    }
    assert Pow2(12) == 4096;
    assert Pow2(16) == 65536;
    assert Pow2(20) == 0x10_0000;
    assert Pow2(24) == 0x100_0000;
    assert Pow2(28) == 0x1000_0000;
  }

  /** The longest prefix two addresses share: they agree on it, and on no longer one. */
  ghost predicate LongestShared(a: Addr, b: Addr, p: nat) {
    && p <= 32 && Top(a, p) == Top(b, p)
    && forall q :: p < q <= 32 ==> Top(a, q) != Top(b, q)
  }

  /** Prefixes of whole bytes, and prefixes out of range. */
  lemma SubnetOfWholeBytes(ip: Addr, anchor: Addr)
    ensures InSubnet(ip, 0, anchor) && (InSubnet(ip, 32, anchor) <==> ip == anchor)
    ensures InSubnet(ip, 8, anchor) <==> ip / 0x100_0000 == anchor / 0x100_0000
    ensures InSubnet(ip, 16, anchor) <==> ip / 0x1_0000 == anchor / 0x1_0000
    ensures InSubnet(ip, 24, anchor) <==> ip / 256 == anchor / 256
    ensures !InSubnet(ip, -1, anchor) && !InSubnet(ip, 33, anchor)
  {
    Pow2Bound();
    Pow2Bytes();
    SameNetworkIff(ip, anchor, 0);
    SameNetworkIff(ip, anchor, 8);
    SameNetworkIff(ip, anchor, 16);
    SameNetworkIff(ip, anchor, 24);
    SameNetworkIff(ip, anchor, 32);
  }

  lemma {:induction false} Pow2Bytes()
    ensures Pow2(0) == 1 && Pow2(8) == 256 && Pow2(16) == 0x1_0000 && Pow2(24) == 0x100_0000
  {
    assert Pow2(4) == 16;
    assert Pow2(12) == 4096;
    assert Pow2(20) == 0x10_0000;
  }

  /** The longest shared prefix decides every subnet test of the two addresses. */
  lemma SharedIff(a: Addr, b: Addr, prefix: nat, q: nat)
    requires LongestShared(a, b, prefix) && q <= 32
    ensures InSubnet(b, q, a) <==> q <= prefix
  {
    SameNetworkIff(b, a, q);
    if q <= prefix {
      ShorterPrefix(a, b, q, prefix);
    }
  }

  method InferPrefixCoveringPool(a: Addr, b: Addr) returns (prefix: nat)
    ensures LongestShared(a, b, prefix)
    ensures forall q: nat | q <= 32 :: InSubnet(b, q, a) <==> q <= prefix
  {
    var lo, hi := a, b;
    if lo > hi {
      lo, hi := hi, lo;
    }
    if lo == hi {
      forall q: nat | q <= 32
        ensures InSubnet(b, q, a) <==> q <= 32
      {
        SharedIff(a, b, 32, q);
      }
      return 32;
    }
    Pow2Bound();
    prefix := 0;
    while prefix < 32
      invariant prefix <= 32 && Top(lo, prefix) == Top(hi, prefix)
    {
      HalveQuotient(lo, Pow2(31 - prefix));
      HalveQuotient(hi, Pow2(31 - prefix));
      if Bit(lo, prefix) != Bit(hi, prefix) {
        break;
      }
      prefix := prefix + 1;
    }
    forall q | prefix < q <= 32
      ensures Top(a, q) != Top(b, q)
    {
      if Top(a, q) == Top(b, q) {
        ShorterPrefix(a, b, prefix + 1, q);
      }
    }
    forall q: nat | q <= 32
      ensures InSubnet(b, q, a) <==> q <= prefix
    {
      SharedIff(a, b, prefix, q);
    }
  }

  /** Every address of a pool lies in the subnet of the inferred prefix anchored at the pool's start, and
      no longer prefix contains both ends. */
  lemma PoolInInferredSubnet(start: Addr, end: Addr, prefix: nat, ip: Addr)
    requires start <= end && LongestShared(start, end, prefix)
    ensures start <= ip <= end ==> InSubnet(ip, prefix, start)
    ensures forall q :: prefix < q <= 32 ==> !InSubnet(end, q, start)
  {
    if start <= ip <= end {
      QuotientOrder(start, ip, Pow2(32 - prefix));
      QuotientOrder(ip, end, Pow2(32 - prefix));
      SameNetworkIff(ip, start, prefix);
    }
    forall q | prefix < q <= 32
      ensures !InSubnet(end, q, start)
    {
      SameNetworkIff(end, start, q);
    }
  }

  /** Every address the DHCP engine hands out after a successful configuration passes the subnet test with
      the inferred prefix, and the pool cannot be described by a longer one. */
  lemma PoolMatchesSubnet(t: DhcpLeases.Table, start: Addr, end: Addr, duration: int, prefix: nat)
    requires DhcpLeases.Shaped(t) && start <= end && LongestShared(start, end, prefix)
    ensures var u := DhcpLeases.Reconfigure(t, start, end, duration).0;
            forall i | 0 <= i < u.count :: InSubnet(u.leases[i].ip, prefix, start)
    ensures forall q :: prefix < q <= 32 ==> !InSubnet(end, q, start)
  {
    DhcpLeases.PoolWithinRange(t, start, end, duration);
    var u := DhcpLeases.Reconfigure(t, start, end, duration).0;
    forall i | 0 <= i < u.count
      ensures InSubnet(u.leases[i].ip, prefix, start)
    {
      PoolInInferredSubnet(start, end, prefix, u.leases[i].ip);
    }
    PoolInInferredSubnet(start, end, prefix, start);
  }
}
