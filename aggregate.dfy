/**
 * Aggregation of selected subnets (sumarizar.py, lines 37-69):
 * sumarizar_redes widens the lowest network one bit at a time, once per
 * further input, and gives up as soon as a candidate misses an input;
 * validar_redes_contiguas checks that the sorted networks follow each
 * other without gap or overlap.
 */
module Aggregate {
  import opened Wrappers
  import opened Ipv4
  import StableSort

  /** Sort key of sorted(redes_objetos, key=lambda r: int(r.network_address)). */
  function BaseKey(n: Network): int {
    n.base
  }

  function SortByBase(nets: seq<Network>): (sorted: seq<Network>)
    ensures |sorted| == |nets| && multiset(sorted) == multiset(nets)
  {
    StableSort.Sort(nets, BaseKey)
  }

  predicate AllValid(nets: seq<Network>) {
    forall k :: 0 <= k < |nets| ==> Valid(nets[k])
  }

  /** The lowest network, the first of the stably sorted list. */
  function First(nets: seq<Network>): (f: Network)
    requires |nets| > 0
    ensures f in nets
    ensures AllValid(nets) ==> Valid(f)
  {
    var sorted := SortByBase(nets);
    StableSort.SortMember(nets, BaseKey, sorted[0]);
    sorted[0]
  }

  /** The candidate after i one-bit widenings of n. */
  function Widen(n: Network, i: nat): (r: Network)
    requires n.prefix <= 32
    ensures r.prefix == if i >= n.prefix then 0 else n.prefix - i
  {
    if i == 0 then n else Supernet(Widen(n, i - 1))
  }

  /** Every candidate is a valid network containing the one it started from. */
  lemma {:induction false} WidenValid(n: Network, i: nat)
    requires Valid(n)
    ensures Valid(Widen(n, i)) && SubnetOf(n, Widen(n, i))
  {
    if i > 0 {
      WidenValid(n, i - 1);
    }
  }

  /** all(r.subnet_of(c) for r in nets) */
  predicate CoversAll(nets: seq<Network>, c: Network)
    requires c.prefix <= 32 && AllValid(nets)
  {
    forall k :: 0 <= k < |nets| ==> SubnetOf(nets[k], c)
  }

  /** Every candidate from the first widening up to the (n-1)-th contains all inputs. */
  predicate WidensCover(nets: seq<Network>, first: Network, n: nat)
    requires AllValid(nets) && Valid(first)
  {
    forall j :: 1 <= j < n ==> CoversAll(nets, Widen(first, j))
  }

  /**
   * sumarizar_redes (lines 37-54) as written: starting from the lowest
   * network, widen by one bit for each further input and fail, with None,
   * the first time the candidate does not contain every input. The only
   * caller passes at least two networks; an empty list would be an
   * IndexError at line 44, which the function does not catch.
   */
  method Summarize(nets: seq<Network>) returns (r: Option<Network>)
    requires |nets| > 0 && AllValid(nets)
    ensures r.Some? <==> WidensCover(nets, First(nets), |nets|)
    ensures r.Some? ==> r.value == Widen(First(nets), |nets| - 1)
  {
    var sorted := SortByBase(nets);
    SortedValid(nets);
    assert sorted[0] == First(nets);
    var superred := sorted[0];
    for i := 1 to |sorted|
      invariant superred == Widen(sorted[0], i - 1)
      invariant WidensCover(nets, sorted[0], i)
    {
      superred := Supernet(superred);
      CoversAllSorted(nets, superred);
      if !CoversAll(sorted, superred) {
        WidensCoverFails(nets, sorted[0], i, |nets|);
        return None;
      }
      WidensCoverStep(nets, sorted[0], i);
    }
    return Some(superred);
  }

  lemma WidensCoverStep(nets: seq<Network>, first: Network, i: nat)
    requires AllValid(nets) && Valid(first)
    requires WidensCover(nets, first, i) && CoversAll(nets, Widen(first, i))
    ensures WidensCover(nets, first, i + 1)
  {
  }

  lemma WidensCoverFails(nets: seq<Network>, first: Network, i: nat, n: nat)
    requires AllValid(nets) && Valid(first) && 1 <= i < n
    requires !CoversAll(nets, Widen(first, i))
    ensures !WidensCover(nets, first, n)
  {
  }

  lemma SortedValid(nets: seq<Network>)
    requires AllValid(nets)
    ensures AllValid(SortByBase(nets))
  {
    var sorted := SortByBase(nets);
    forall k | 0 <= k < |sorted|
      ensures Valid(sorted[k])
    {
      StableSort.SortMember(nets, BaseKey, sorted[k]);
    }
  }

  /** Containing the sorted list is containing the input list. */
  lemma CoversAllSorted(nets: seq<Network>, c: Network)
    requires c.prefix <= 32 && AllValid(nets)
    ensures AllValid(SortByBase(nets)) && (CoversAll(SortByBase(nets), c) <==> CoversAll(nets, c))
  {
    SortedValid(nets);
    if CoversAll(nets, c) {
      CoversAllPermutation(SortByBase(nets), nets, c);
    }
    if CoversAll(SortByBase(nets), c) {
      CoversAllPermutation(nets, SortByBase(nets), c);
    }
  }

  lemma CoversAllPermutation(a: seq<Network>, b: seq<Network>, c: Network)
    requires c.prefix <= 32 && AllValid(a) && AllValid(b) && multiset(a) == multiset(b)
    requires CoversAll(b, c)
    ensures CoversAll(a, c)
  {
    forall k | 0 <= k < |a|
      ensures SubnetOf(a[k], c)
    {
      assert a[k] in multiset(b);
      var j :| 0 <= j < |b| && b[j] == a[k];
    }
  }

  /**
   * On success the result contains every input, and its prefix is the
   * lowest network's prefix less one per further input, stopping at /0.
   */
  lemma SummarizeSuccess(nets: seq<Network>, r: Network)
    requires |nets| > 0 && AllValid(nets)
    requires WidensCover(nets, First(nets), |nets|)
    requires r == Widen(First(nets), |nets| - 1)
    ensures Valid(r) && CoversAll(nets, r)
    ensures r.prefix == if |nets| - 1 >= First(nets).prefix then 0 else First(nets).prefix - (|nets| - 1)
  {
    var f := First(nets);
    WidenValid(f, |nets| - 1);
    if |nets| == 1 {
      SingleFirst(nets);
      assert SubnetOf(nets[0], r);
    } else {
      assert CoversAll(nets, Widen(f, |nets| - 1));
    }
  }

  lemma SingleFirst(nets: seq<Network>)
    requires |nets| == 1
    ensures First(nets) == nets[0]
  {
    StableSort.SortMember(nets, BaseKey, First(nets));
  }

  /** A single network is returned as it is. */
  lemma SummarizeSingle(n: Network)
    requires Valid(n)
    ensures First([n]) == n && Widen(First([n]), 0) == n
  {
    SingleFirst([n]);
  }

  // ---------------------------------------------------------------------
  // The supernet chain of one network

  /** Widening i bits is clearing the host bits of the base at the shorter prefix. */
  lemma {:induction false} WidenIsToNetwork(n: Network, i: nat, q: nat)
    requires Valid(n) && q + i == n.prefix
    ensures Widen(n, i) == ToNetwork(n.base, q)
    decreases i
  {
    if i == 0 {
      ToNetworkUnique(n.base, n);
    } else {
      WidenIsToNetwork(n, i - 1, q + 1);
      WidenStep(n, i, q);
    }
  }

  lemma WidenStep(n: Network, i: nat, p: nat)
    requires Valid(n) && 1 <= i && p + i == n.prefix
    requires Widen(n, i - 1) == ToNetwork(n.base, p + 1)
    ensures Widen(n, i) == ToNetwork(n.base, p)
  {
    var w := Widen(n, i - 1);
    ToNetworkTwice(n.base, p + 1, p);
    assert Widen(n, i) == ToNetwork(w.base, p);
  }

  /** Every valid network that contains n is on n's supernet chain. */
  lemma OnChain(n: Network, m: Network)
    requires Valid(n) && Valid(m) && SubnetOf(n, m)
    ensures m.prefix <= n.prefix && m == Widen(n, n.prefix - m.prefix)
  {
    ContainerPrefix(n, m);
    assert InNetwork(n.base, m);
    ToNetworkUnique(n.base, m);
    ChainTail(n, m, m.prefix);
  }

  lemma ChainTail(n: Network, m: Network, q: nat)
    requires Valid(n) && q <= n.prefix && ToNetwork(n.base, q) == m
    ensures m == Widen(n, n.prefix - q)
  {
    var i := n.prefix - q;
    WidenIsToNetwork(n, i, q);
  }

  /** A network that contains another has a prefix no longer than it. */
  lemma ContainerPrefix(n: Network, m: Network)
    requires n.prefix <= 32 && m.prefix <= 32 && SubnetOf(n, m)
    ensures m.prefix <= n.prefix
  {
    assert Size(n) <= Size(m);
    if m.prefix > n.prefix {
      Pow2Strict(32 - m.prefix, 32 - n.prefix);
    }
  }

  lemma Pow2Strict(a: nat, b: nat)
    requires a < b
    ensures Pow2(a) < Pow2(b)
  {
    Pow2Monotone(a + 1, b);
    assert Pow2(a + 1) == 2 * Pow2(a);
  }

  /** Further along the chain means a larger network. */
  lemma {:induction false} WidenMonotone(n: Network, i: nat, j: nat)
    requires Valid(n) && i <= j
    ensures SubnetOf(Widen(n, i), Widen(n, j))
    decreases j
  {
    if i < j {
      WidenMonotone(n, i, j - 1);
      WidenOnce(n, j);
      SubnetOfTransitive(Widen(n, i), Widen(n, j - 1), Widen(n, j));
    }
  }

  lemma SubnetOfTransitive(a: Network, b: Network, c: Network)
    requires a.prefix <= 32 && b.prefix <= 32 && c.prefix <= 32
    requires SubnetOf(a, b) && SubnetOf(b, c)
    ensures SubnetOf(a, c)
  {
  }

  /** Two networks that contain each other are the same network. */
  lemma SubnetOfAntisymmetric(a: Network, b: Network)
    requires Valid(a) && Valid(b) && SubnetOf(a, b) && SubnetOf(b, a)
    ensures a == b
  {
    ContainerPrefix(a, b);
    ContainerPrefix(b, a);
  }

  lemma WidenOnce(n: Network, j: nat)
    requires Valid(n) && j >= 1
    ensures Valid(Widen(n, j - 1)) && SubnetOf(Widen(n, j - 1), Widen(n, j))
  {
    WidenValid(n, j - 1);
  }

  /** The whole address space contains every valid network. */
  lemma WholeSpaceCovers(nets: seq<Network>, n: Network, i: nat)
    requires AllValid(nets) && Valid(n) && i >= n.prefix
    ensures CoversAll(nets, Widen(n, i))
  {
    var w := Widen(n, i);
    WidenValid(n, i);
    assert Size(w) == AddressSpace by {
      Pow2Of32();
    }
  }

  // ---------------------------------------------------------------------
  // The smallest covering supernet

  /**
   * The covering network the docstring promises: widen the lowest network
   * until it contains every input. Always succeeds, since /0 contains
   * every network, and the result is the smallest network that contains
   * all inputs.
   */
  method SummarizeMinimal(nets: seq<Network>) returns (r: Network)
    requires |nets| > 0 && AllValid(nets)
    ensures Valid(r) && CoversAll(nets, r)
    ensures forall m :: Valid(m) && CoversAll(nets, m) ==> SubnetOf(r, m)
  {
    var first := First(nets);
    r := first;
    var d := 0;
    while !CoversAll(nets, r)
      invariant d <= first.prefix && r == Widen(first, d)
      invariant NoneCoverBefore(nets, first, d)
      decreases first.prefix - d
    {
      if d == first.prefix {
        WholeSpaceCovers(nets, first, d);
        assert false;
      }
      NoneCoverStep(nets, first, d);
      r := Supernet(r);
      d := d + 1;
    }
    WidenValid(first, d);
    forall m | Valid(m) && CoversAll(nets, m)
      ensures SubnetOf(r, m)
    {
      LeastCover(nets, first, d, m);
    }
  }

  /** No candidate before the d-th contains all inputs. */
  predicate NoneCoverBefore(nets: seq<Network>, first: Network, d: nat)
    requires AllValid(nets) && Valid(first)
  {
    forall e :: 0 <= e < d ==> !CoversAll(nets, Widen(first, e))
  }

  lemma NoneCoverStep(nets: seq<Network>, first: Network, d: nat)
    requires AllValid(nets) && Valid(first)
    requires NoneCoverBefore(nets, first, d) && !CoversAll(nets, Widen(first, d))
    ensures NoneCoverBefore(nets, first, d + 1)
  {
  }

  lemma CoverNotBefore(nets: seq<Network>, first: Network, d: nat, p: nat)
    requires AllValid(nets) && Valid(first)
    requires NoneCoverBefore(nets, first, d) && CoversAll(nets, Widen(first, p))
    ensures d <= p
  {
  }

  /** The first covering network on the chain lies inside every covering network. */
  lemma LeastCover(nets: seq<Network>, first: Network, d: nat, m: Network)
    requires AllValid(nets) && Valid(first) && first in nets
    requires NoneCoverBefore(nets, first, d)
    requires Valid(m) && CoversAll(nets, m)
    ensures SubnetOf(Widen(first, d), m)
  {
    var k :| 0 <= k < |nets| && nets[k] == first;
    assert SubnetOf(nets[k], m);
    OnChain(first, m);
    var p := first.prefix - m.prefix;
    CoverNotBefore(nets, first, d, p);
    WidenMonotone(first, d, p);
  }

  // ---------------------------------------------------------------------
  // validar_redes_contiguas

  /** Each network starts right after the broadcast address of the one before it. */
  predicate Chained(s: seq<Network>)
    requires forall k :: 0 <= k < |s| ==> s[k].prefix <= 32
  {
    forall i :: 1 <= i < |s| ==> Broadcast(s[i - 1]) + 1 == s[i].base
  }

  /**
   * validar_redes_contiguas (lines 56-69): sort by network address, then
   * compare every consecutive pair, stopping at the first gap or overlap.
   */
  method ValidateContiguous(nets: seq<Network>) returns (ok: bool)
    requires AllValid(nets)
    ensures AllValid(SortByBase(nets))
    ensures ok <==> Chained(SortByBase(nets))
  {
    var sorted := SortByBase(nets);
    SortedValid(nets);
    var i := 1;
    while i < |sorted|
      invariant 1 <= i && (|sorted| == 0 || i <= |sorted|)
      invariant forall j :: 1 <= j < i && j < |sorted| ==> Broadcast(sorted[j - 1]) + 1 == sorted[j].base
    {
      var prev, curr := sorted[i - 1], sorted[i];
      if Broadcast(prev) + 1 != curr.base {
        return false;
      }
      i := i + 1;
    }
    return true;
  }

  /**
   * Chained networks follow each other in increasing order: any earlier
   * network ends before any later one begins, so no two share an address.
   */
  lemma {:induction false} ChainedApart(s: seq<Network>, i: nat, j: nat)
    requires AllValid(s) && Chained(s) && i < j < |s|
    ensures Broadcast(s[i]) < s[j].base
    decreases j
  {
    if i < j - 1 {
      ChainedApart(s, i, j - 1);
    }
  }

  /** Chained networks cover the interval from the first base to the last broadcast without gaps. */
  lemma {:induction false} ChainedCovers(s: seq<Network>, x: nat)
    requires AllValid(s) && Chained(s) && |s| > 0
    requires s[0].base <= x <= Broadcast(s[|s| - 1])
    ensures exists k :: 0 <= k < |s| && InNetwork(x, s[k])
  {
    var last := |s| - 1;
    if x >= s[last].base {
      assert InNetwork(x, s[last]);
    } else {
      var init := s[..last];
      assert Broadcast(init[|init| - 1]) + 1 == s[last].base;
      ChainedCovers(init, x);
      var k :| 0 <= k < |init| && InNetwork(x, init[k]);
      assert s[k] == init[k];
    }
  }

  /** Two copies of one network are not contiguous. */
  lemma DuplicateNotChained(n: Network)
    requires Valid(n)
    ensures !Chained(SortByBase([n, n]))
  {
    var sorted := SortByBase([n, n]);
    StableSort.SortMember([n, n], BaseKey, sorted[0]);
    StableSort.SortMember([n, n], BaseKey, sorted[1]);
  }

  /** Empty and one-element lists are contiguous. */
  lemma ShortListsChained(nets: seq<Network>)
    requires AllValid(nets) && |nets| <= 1
    ensures AllValid(SortByBase(nets)) && Chained(SortByBase(nets))
  {
    SortedValid(nets);
  }
}
