/**
 * IPv4 numeric primitives standing in for the calls the planner makes on
 * Python's ipaddress module: non-strict network construction, size and
 * broadcast, one-bit supernet, containment, and the usable host range.
 * Addresses are naturals below 2^32.
 */
module Ipv4 {

  const AddressSpace: nat := 0x1_0000_0000

  function Pow2(k: nat): (r: nat)
    ensures r >= 1
  {
    if k == 0 then 1 else 2 * Pow2(k - 1)
  }

  lemma {:induction false} Pow2Add(a: nat, b: nat)
    ensures Pow2(a + b) == Pow2(a) * Pow2(b)
  {
    if a > 0 {
      Pow2Add(a - 1, b);
    }
  }

  lemma Pow2Of32()
    ensures Pow2(32) == AddressSpace
  {
    assert Pow2(4) == 0x10;
    assert Pow2(8) == 0x100;
    assert Pow2(12) == 0x1000;
    assert Pow2(16) == 0x1_0000;
    assert Pow2(20) == 0x10_0000;
    assert Pow2(24) == 0x100_0000;
    assert Pow2(28) == 0x1000_0000;
  }

  lemma {:induction false} Pow2Monotone(a: nat, b: nat)
    requires a <= b
    ensures Pow2(a) <= Pow2(b)
  {
    if a < b {
      Pow2Monotone(a, b - 1);
    }
  }

  lemma MulMonoLeft(a: nat, b: nat, c: nat)
    requires a <= b
    ensures a * c <= b * c
  {
  }

  /** Quotient and remainder are determined by x == q * m + r with r < m. */
  lemma DivModUnique(x: nat, m: nat, q: nat, r: nat)
    requires m > 0 && x == q * m + r && r < m
    ensures x / m == q && x % m == r
  {
    var q', r' := x / m, x % m;
    assert x == q' * m + r';
    if q < q' {
      MulMonoLeft(q + 1, q', m);
      assert false;
    } else if q' < q {
      MulMonoLeft(q' + 1, q, m);
      assert false;
    }
  }

  lemma MultipleMod(q: nat, m: nat)
    requires m > 0
    ensures (q * m) % m == 0 && (q * m) / m == q
  {
    DivModUnique(q * m, m, q, 0);
  }

  lemma MultipleOf(x: nat, m: nat)
    requires m > 0 && x % m == 0
    ensures x == (x / m) * m
  {
  }

  /** A multiple of 2^j is a multiple of every smaller power of two. */
  lemma MultipleOfSmallerPow2(x: nat, i: nat, j: nat)
    requires i <= j && x % Pow2(j) == 0
    ensures x % Pow2(i) == 0
  {
    Pow2Add(i, j - i);
    MultipleOfFactor(x, Pow2(i), Pow2(j - i));
  }

  lemma MultipleOfFactor(x: nat, a: nat, b: nat)
    requires a > 0 && b > 0 && x % (a * b) == 0
    ensures x % a == 0
  {
    var m := a * b;
    var q := x / m;
    MultipleOf(x, m);
    assert x == q * m;
    assert q * m == (q * b) * a;
    MultipleMod(q * b, a);
  }

  /** Network(base, prefix): the CIDR block base/prefix. */
  datatype Network = Network(base: nat, prefix: nat)

  function Size(n: Network): (r: nat)
    requires n.prefix <= 32
  {
    Pow2(32 - n.prefix)
  }

  function Broadcast(n: Network): nat
    requires n.prefix <= 32
  {
    n.base + Size(n) - 1
  }

  /** A canonical network lying wholly inside the IPv4 address space. */
  predicate Valid(n: Network) {
    n.prefix <= 32 && n.base % Size(n) == 0 && Broadcast(n) < AddressSpace
  }

  /** Address x belongs to network n. */
  predicate InNetwork(x: nat, n: Network)
    requires n.prefix <= 32
  {
    n.base <= x <= Broadcast(n)
  }

  /**
   * ip_network(f"{addr}/{prefix}", strict=False): the host bits of addr
   * are cleared, giving the unique block of that prefix holding addr.
   */
  function ToNetwork(addr: nat, prefix: nat): (n: Network)
    requires prefix <= 32
    ensures n.prefix == prefix
    ensures n.base % Size(n) == 0
    ensures n.base <= addr < n.base + Size(n)
    ensures addr < AddressSpace ==> Valid(n)
  {
    var b := AlignDown(addr, Pow2(32 - prefix));
    AlignedFits(b, 32 - prefix);
    Network(b, prefix)
  }

  /** The largest multiple of s not above x. */
  function AlignDown(x: nat, s: nat): (b: nat)
    requires s > 0
    ensures b % s == 0 && b <= x < b + s
  {
    MultipleMod(x / s, s);
    assert x == (x / s) * s + x % s;
    (x / s) * s
  }

  /** An aligned block that starts inside the address space ends inside it. */
  lemma AlignedFits(b: nat, k: nat)
    requires k <= 32 && b % Pow2(k) == 0
    ensures b < AddressSpace ==> b + Pow2(k) <= AddressSpace
  {
    if b >= AddressSpace {
      return;
    }
    Pow2Of32();
    Pow2Add(32 - k, k);
    MultipleMod(Pow2(32 - k), Pow2(k));
    AlignedStep(b, AddressSpace, Pow2(k));
  }

  /** The aligned start found by ToNetwork is the greatest aligned value not above addr. */
  lemma AlignedBelow(c: nat, a: nat, s: nat)
    requires s > 0 && c % s == 0 && c <= a
    ensures c <= AlignDown(a, s)
  {
    var b := AlignDown(a, s);
    if c > b {
      AlignedStep(b, c, s);
    }
  }

  /** Two aligned blocks of one size that share an address start at the same place. */
  lemma AlignedUnique(b1: nat, b2: nat, s: nat, x: nat)
    requires s > 0 && b1 % s == 0 && b2 % s == 0
    requires b1 <= x < b1 + s && b2 <= x < b2 + s
    ensures b1 == b2
  {
    if b1 < b2 {
      AlignedStep(b1, b2, s);
    } else if b2 < b1 {
      AlignedStep(b2, b1, s);
    }
  }

  lemma AlignedStep(lo: nat, hi: nat, s: nat)
    requires s > 0 && lo % s == 0 && hi % s == 0 && lo < hi
    ensures lo + s <= hi
  {
    var a, b := lo / s, hi / s;
    assert lo == a * s && hi == b * s;
    assert a < b;
    assert (a + 1) * s <= b * s;
  }

  /** The address right after an aligned block is aligned to the same size. */
  lemma NextAligned(b: nat, s: nat)
    requires s > 0 && b % s == 0
    ensures (b + s) % s == 0
  {
    MultipleOf(b, s);
    assert b + s == (b / s + 1) * s;
    MultipleMod(b / s + 1, s);
  }

  /** Any aligned block of prefix p holding addr is the one ToNetwork builds. */
  lemma ToNetworkUnique(addr: nat, n: Network)
    requires n.prefix <= 32 && n.base % Size(n) == 0 && InNetwork(addr, n)
    ensures ToNetwork(addr, n.prefix) == n
  {
    var m := ToNetwork(addr, n.prefix);
    AlignedUnique(m.base, n.base, Size(n), addr);
  }

  /**
   * Clearing host bits twice, the second time with a shorter prefix, is the
   * same as clearing them once with the shorter prefix.
   */
  lemma ToNetworkTwice(addr: nat, p: nat, q: nat)
    requires q <= p <= 32
    ensures ToNetwork(ToNetwork(addr, p).base, q) == ToNetwork(addr, q)
  {
    var inner := ToNetwork(addr, p);
    var outer := ToNetwork(addr, q);
    MultipleOfSmallerPow2(outer.base, 32 - p, 32 - q);
    AlignedBelow(outer.base, addr, Pow2(32 - p));
    Pow2Monotone(32 - p, 32 - q);
    ToNetworkUnique(inner.base, outer);
  }

  /** network.subnet_of(other): interval containment. */
  predicate SubnetOf(a: Network, b: Network)
    requires a.prefix <= 32 && b.prefix <= 32
  {
    b.base <= a.base && Broadcast(a) <= Broadcast(b)
  }

  lemma {:induction false} SubnetOfMeansContainment(a: Network, b: Network)
    requires a.prefix <= 32 && b.prefix <= 32
    ensures SubnetOf(a, b) <==> forall x :: InNetwork(x, a) ==> InNetwork(x, b)
  {
    if forall x :: InNetwork(x, a) ==> InNetwork(x, b) {
      assert InNetwork(a.base, a);
      assert InNetwork(Broadcast(a), a);
    }
  }

  /**
   * network.supernet(new_prefix=prefixlen - 1): one more host bit, base
   * re-aligned; a /0 is returned unchanged.
   */
  function Supernet(n: Network): (r: Network)
    requires n.prefix <= 32
    ensures r.prefix == if n.prefix == 0 then 0 else n.prefix - 1
    ensures Size(r) == if n.prefix == 0 then Size(n) else 2 * Size(n)
    ensures Valid(n) ==> Valid(r) && SubnetOf(n, r)
  {
    if n.prefix == 0 then n
    else
      var r := ToNetwork(n.base, n.prefix - 1);
      assert Size(r) == 2 * Size(n);
      AlignedStep2(r.base, n.base, Size(n));
      r
  }

  lemma AlignedStep2(big: nat, small: nat, s: nat)
    requires s > 0 && big % (2 * s) == 0
    requires big <= small < big + 2 * s
    ensures small % s == 0 ==> small + s <= big + 2 * s
  {
    if small % s != 0 || small == big {
      return;
    }
    var a := big / (2 * s);
    MultipleOf(big, 2 * s);
    assert big == (2 * a) * s;
    MultipleMod(2 * a, s);
    AlignedStep(big, small, s);
    if small > big + s {
      MultipleMod(2 * a + 1, s);
      assert big + s == (2 * a + 1) * s;
      AlignedStep(big + s, small, s);
      assert false;
    }
  }

  /**
   * First and last address that network.hosts() yields: everything strictly
   * between network and broadcast, except that a /31 yields both of its
   * addresses and a /32 its single address.
   */
  function UsableRange(n: Network): (r: (nat, nat))
    requires Valid(n)
    ensures InNetwork(r.0, n) && InNetwork(r.1, n) && r.0 <= r.1
    ensures n.prefix <= 30 ==> n.base < r.0 && r.1 < Broadcast(n) && r.1 - r.0 + 1 == Size(n) - 2
    ensures n.prefix > 30 ==> r.0 == n.base && r.1 == Broadcast(n)
  {
    if n.prefix == 32 then (n.base, n.base)
    else if n.prefix == 31 then (n.base, n.base + 1)
    else
      Pow2Monotone(2, 32 - n.prefix);
      assert Pow2(2) == 4;
      (n.base + 1, Broadcast(n) - 1)
  }

  /** next(subred.hosts()): the gateway is the first usable address. */
  function Gateway(n: Network): (g: nat)
    requires Valid(n)
    ensures InNetwork(g, n)
    ensures n.prefix <= 30 ==> g == n.base + 1 && g < Broadcast(n)
  {
    UsableRange(n).0
  }
}
