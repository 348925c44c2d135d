/**
 * What the allocation of sumarizar.py (lines 100-160) guarantees, stated
 * about the blocks Allocate stores in each record: the shape of each block,
 * that every record gets exactly one, that blocks stay inside the address
 * space, that starting from the largest request packs them back to back,
 * and that a rotated start can make blocks overlap undetected.
 */
module VlsmProperties {
  import opened Wrappers
  import opened Ipv4
  import opened Sizing
  import opened Decimal
  import StableSort
  import opened Vlsm

  /** Sum of the block sizes of a list of prefixes. */
  function Span(ps: seq<nat>): nat
    requires PrefixesOk(ps)
  {
    if ps == [] then 0 else Span(ps[..|ps| - 1]) + Pow2(32 - ps[|ps| - 1])
  }

  /** Sum of total_hosts over a list of records. */
  function Totals(recs: seq<Record>): nat {
    if recs == [] then 0 else Totals(recs[..|recs| - 1]) + recs[|recs| - 1].totalHosts
  }

  ghost predicate NonDecreasing(ps: seq<nat>) {
    forall i, j :: 0 <= i < j < |ps| ==> ps[i] <= ps[j]
  }

  // ---------------------------------------------------------------------
  // The cursor chain, for any prefixes and any first cursor

  /**
   * Block i is the cursor with its host bits cleared: aligned, not above the
   * cursor, holding it; the next cursor is its broadcast address plus one.
   */
  lemma BlockShape(ps: seq<nat>, c0: nat, i: nat)
    requires PrefixesOk(ps) && i < |ps|
    ensures var b := Block(ps, c0, i);
      b.prefix == ps[i] && b.base % Size(b) == 0 &&
      b.base <= Cursor(ps, c0, i) < b.base + Size(b) &&
      Cursor(ps, c0, i + 1) == Broadcast(b) + 1 &&
      Cursor(ps, c0, i) < Cursor(ps, c0, i + 1)
  {
    var b := Block(ps, c0, i);
    var next := b.base + Size(b);
    NextAligned(b.base, Size(b));
    var m := Network(next, ps[i]);
    assert Size(m) == Size(b);
    ToNetworkUnique(next, m);
    CursorNext(ps, c0, i, next, ps[i]);
  }

  /** The cursor only moves forward. */
  lemma CursorIncreasing(ps: seq<nat>, c0: nat, i: nat, j: nat)
    requires PrefixesOk(ps) && i < j <= |ps|
    ensures Cursor(ps, c0, i) < Cursor(ps, c0, j)
  {
    CursorsGrow(ps, c0);
    StepwiseIncreasing(Cursors(ps, c0), i, j);
  }

  /** The cursor before each iteration, and after the last. */
  ghost function Cursors(ps: seq<nat>, c0: nat): (cs: seq<nat>)
    requires PrefixesOk(ps)
    ensures |cs| == |ps| + 1 && forall k :: 0 <= k <= |ps| ==> cs[k] == Cursor(ps, c0, k)
  {
    seq(|ps| + 1, k requires 0 <= k <= |ps| => Cursor(ps, c0, k))
  }

  lemma CursorsGrow(ps: seq<nat>, c0: nat)
    requires PrefixesOk(ps)
    ensures var cs := Cursors(ps, c0); forall k :: 0 <= k < |cs| - 1 ==> cs[k] < cs[k + 1]
  {
    forall k | 0 <= k < |ps|
      ensures Cursor(ps, c0, k) < Cursor(ps, c0, k + 1)
    {
      CursorAdvances(ps, c0, k);
    }
  }

  /** A sequence that grows at every step grows between any two positions. */
  lemma {:induction false} StepwiseIncreasing(xs: seq<nat>, i: nat, j: nat)
    requires forall k :: 0 <= k < |xs| - 1 ==> xs[k] < xs[k + 1]
    requires i < j < |xs|
    ensures xs[i] < xs[j]
    decreases j
  {
    if i < j - 1 {
      StepwiseIncreasing(xs, i, j - 1);
    }
  }

  lemma CursorAdvances(ps: seq<nat>, c0: nat, k: nat)
    requires PrefixesOk(ps) && k < |ps|
    ensures Cursor(ps, c0, k) < Cursor(ps, c0, k + 1)
  {
    BlockShape(ps, c0, k);
  }

  /** The cursor never runs further than the sum of the block sizes so far. */
  lemma {:induction false} CursorBound(ps: seq<nat>, c0: nat, i: nat)
    requires PrefixesOk(ps) && i <= |ps|
    ensures Cursor(ps, c0, i) <= c0 + Span(ps[..i])
    decreases i
  {
    if i > 0 {
      var k := i - 1;
      CursorBound(ps, c0, k);
      CursorStep(ps, c0, k);
      SpanStep(ps, k);
      assert k + 1 == i;
    }
  }

  /** One iteration moves the cursor by at most the block size. */
  lemma CursorStep(ps: seq<nat>, c0: nat, k: nat)
    requires PrefixesOk(ps) && k < |ps|
    ensures Cursor(ps, c0, k + 1) <= Cursor(ps, c0, k) + Pow2(32 - ps[k])
  {
    BlockShape(ps, c0, k);
  }

  lemma SpanStep(ps: seq<nat>, k: nat)
    requires PrefixesOk(ps) && k < |ps|
    ensures Span(ps[..k + 1]) == Span(ps[..k]) + Pow2(32 - ps[k])
  {
    assert ps[..k + 1][..k] == ps[..k];
  }

  lemma {:induction false} SpanPrefix(ps: seq<nat>, i: nat)
    requires PrefixesOk(ps) && i <= |ps|
    ensures Span(ps[..i]) <= Span(ps)
  {
    if i < |ps| {
      SpanPrefix(ps[..|ps| - 1], i);
      assert ps[..|ps| - 1][..i] == ps[..i];
    } else {
      assert ps[..i] == ps;
    }
  }

  /**
   * When sizes never grow along the chain and the first cursor is aligned to
   * the first block, every cursor is already aligned to its block: clearing
   * host bits changes nothing.
   */
  lemma AlignedChain(ps: seq<nat>, c0: nat, i: nat)
    requires PrefixesOk(ps) && NonDecreasing(ps) && i < |ps|
    requires c0 % Pow2(32 - ps[0]) == 0
    ensures Cursor(ps, c0, i) % Pow2(32 - ps[i]) == 0
    ensures Block(ps, c0, i).base == Cursor(ps, c0, i)
  {
    if i > 0 {
      var k := i - 1;
      NextCursorAligned(ps, c0, k);
      assert k + 1 == i && ps[k] <= ps[i];
      MultipleOfSmallerPow2(Cursor(ps, c0, i), 32 - ps[i], 32 - ps[k]);
    }
    BlockAtCursor(ps, c0, i);
  }

  /** The cursor after block k is aligned to block k's size. */
  lemma NextCursorAligned(ps: seq<nat>, c0: nat, k: nat)
    requires PrefixesOk(ps) && k < |ps|
    ensures Cursor(ps, c0, k + 1) % Pow2(32 - ps[k]) == 0
  {
    BlockShape(ps, c0, k);
    var b := Block(ps, c0, k);
    NextAligned(b.base, Size(b));
  }

  /** An aligned cursor is its own block's network address. */
  lemma BlockAtCursor(ps: seq<nat>, c0: nat, i: nat)
    requires PrefixesOk(ps) && i < |ps| && Cursor(ps, c0, i) % Pow2(32 - ps[i]) == 0
    ensures Block(ps, c0, i).base == Cursor(ps, c0, i)
  {
    var c := Cursor(ps, c0, i);
    ToNetworkUnique(c, Network(c, ps[i]));
  }

  /** Such a chain lays its blocks back to back, without gaps and without overlap. */
  lemma AlignedChainContiguous(ps: seq<nat>, c0: nat)
    requires PrefixesOk(ps) && NonDecreasing(ps) && |ps| > 0
    requires c0 % Pow2(32 - ps[0]) == 0
    ensures forall i :: 0 < i < |ps| ==> Block(ps, c0, i).base == Broadcast(Block(ps, c0, i - 1)) + 1
    ensures forall i, j :: 0 <= i < j < |ps| ==> Broadcast(Block(ps, c0, i)) < Block(ps, c0, j).base
  {
    forall i | 0 < i < |ps|
      ensures Block(ps, c0, i).base == Broadcast(Block(ps, c0, i - 1)) + 1
    {
      AlignedChainNext(ps, c0, i);
    }
    forall i, j | 0 <= i < j < |ps|
      ensures Broadcast(Block(ps, c0, i)) < Block(ps, c0, j).base
    {
      AlignedChainApart(ps, c0, i, j);
    }
  }

  lemma AlignedChainNext(ps: seq<nat>, c0: nat, i: nat)
    requires PrefixesOk(ps) && NonDecreasing(ps) && 0 < i < |ps|
    requires c0 % Pow2(32 - ps[0]) == 0
    ensures Block(ps, c0, i).base == Broadcast(Block(ps, c0, i - 1)) + 1
  {
    AlignedChain(ps, c0, i);
    BlockShape(ps, c0, i - 1);
  }

  lemma AlignedChainApart(ps: seq<nat>, c0: nat, i: nat, j: nat)
    requires PrefixesOk(ps) && NonDecreasing(ps) && i < j < |ps|
    requires c0 % Pow2(32 - ps[0]) == 0
    ensures Broadcast(Block(ps, c0, i)) < Block(ps, c0, j).base
  {
    BlockShape(ps, c0, i);
    AlignedChain(ps, c0, j);
    if i + 1 < j {
      CursorIncreasing(ps, c0, i + 1, j);
    }
  }

  // ---------------------------------------------------------------------
  // Records and their order

  /** A sorted record is one Sized built: its margin and block size are those of its host count. */
  lemma SortedSized(requests: seq<Request>, k: nat)
    requires k < |requests|
    ensures var r := SortedRecords(requests)[k];
      r.withMargin == WithMargin(r.hosts) && r.totalHosts == TotalHosts(r.hosts) && r.subnet == None
  {
    var sized := SizedAll(requests);
    var r := SortedRecords(requests)[k];
    StableSort.SortMember(sized, LargestFirst, r);
    var j :| 0 <= j < |sized| && sized[j] == r;
  }

  /** An earlier sorted record needs at least as many addresses as a later one. */
  lemma SortedPair(requests: seq<Request>, i: nat, j: nat)
    requires i < j < |requests|
    ensures var sorted := SortedRecords(requests);
      sorted[i].withMargin >= sorted[j].withMargin && sorted[i].totalHosts >= sorted[j].totalHosts
  {
    var sorted := SortedRecords(requests);
    StableSort.SortOrdered(SizedAll(requests), LargestFirst);
    assert LargestFirst(sorted[i]) <= LargestFirst(sorted[j]);
    SortedSized(requests, i);
    SortedSized(requests, j);
    TotalHostsMonotone(sorted[j].hosts, sorted[i].hosts);
  }

  /**
   * Line 100: the records are those built from the requests, reordered so
   * that total_equipos, and with it total_hosts, never grows along the list;
   * records with equal total_equipos keep their input order.
   */
  lemma LargestFirstOrder(requests: seq<Request>)
    ensures var sorted := SortedRecords(requests);
      multiset(sorted) == multiset(SizedAll(requests)) &&
      (forall i, j :: 0 <= i < j < |sorted| ==>
        sorted[i].withMargin >= sorted[j].withMargin && sorted[i].totalHosts >= sorted[j].totalHosts) &&
      (forall m :: StableSort.WithKey(sorted, LargestFirst, m) == StableSort.WithKey(SizedAll(requests), LargestFirst, m))
  {
    var sorted := SortedRecords(requests);
    forall m {
      StableSort.SortStable(SizedAll(requests), LargestFirst, m);
    }
    forall i, j | 0 <= i < j < |sorted|
      ensures sorted[i].withMargin >= sorted[j].withMargin && sorted[i].totalHosts >= sorted[j].totalHosts
    {
      SortedPair(requests, i, j);
    }
  }

  /**
   * Lines 108-111 and 125-132: the start is clamped into [0, n), and as i
   * runs over 0..n-1 the slot (start + i) mod n meets every record exactly
   * once, record k at iteration Turn(k).
   */
  lemma EveryRecordOnce(start: int, n: nat)
    requires n > 0
    ensures var s := EffectiveStart(start, n);
      s < n && (0 <= start < n ==> s == start) &&
      (forall k :: 0 <= k < n ==> (s + Turn(k, s, n)) % n == k) &&
      (forall k1, k2 :: 0 <= k1 < n && 0 <= k2 < n && Turn(k1, s, n) == Turn(k2, s, n) ==> k1 == k2)
  {
    var s := EffectiveStart(start, n);
    forall k | 0 <= k < n
      ensures (s + Turn(k, s, n)) % n == k
    {
      if k >= s {
        DivModUnique(s + Turn(k, s, n), n, 0, k);
      } else {
        DivModUnique(s + Turn(k, s, n), n, 1, k);
      }
    }
  }

  lemma RotatedWellSized(requests: seq<Request>, base: nat, s: nat)
    requires Admissible(requests, base) && s < |requests|
    ensures var rot := Rotated(SortedRecords(requests), s);
      |rot| == |requests| && forall r :: r in rot ==> WellSized(r)
  {
    SortedPrefixesOk(requests, base);
    var sorted := SortedRecords(requests);
    assert forall r :: r in Rotated(sorted, s) ==> r in sorted;
  }

  /** The block made for sorted record k (lines 131-132) is a valid block of that record's prefix. */
  lemma BlockOfRecord(requests: seq<Request>, base: nat, s: nat, k: nat)
    requires Admissible(requests, base) && s < |requests| && k < |requests|
    ensures var sorted := SortedRecords(requests);
      var ps := Prefixes(Rotated(sorted, s));
      var b := Block(ps, StartCursor(sorted, s, base), Turn(k, s, |requests|));
      WellSized(sorted[k]) && Valid(b) && b.prefix == PrefixOf(sorted[k])
  {
    var sorted := SortedRecords(requests);
    RotatedAtTurn(sorted, s, k);
    SortedWellSized(requests, base, k);
    BlockInsideAddressSpace(requests, base, s, Turn(k, s, |requests|));
  }

  /**
   * A record as the program prints it after allocation (lines 131-151): its
   * subnet is a valid IPv4 block with the record's own prefix, holding
   * total_hosts addresses, at least the hosts plus margin, with gateway
   * network + 1 and usable hosts network + 1 to broadcast - 1.
   */
  ghost predicate Allocated(r: Record) {
    r.subnet.Some? && AllocatedBlock(r.subnet.value, PrefixOf(r), r.hosts, r.totalHosts)
  }

  ghost predicate AllocatedBlock(b: Network, p: nat, hosts: nat, total: nat) {
    Valid(b) && b.prefix == p && Size(b) == total &&
    total == TotalHosts(hosts) && Size(b) >= WithMargin(hosts) &&
    Gateway(b) == b.base + 1 && UsableRange(b) == (b.base + 1, Broadcast(b) - 1)
  }

  /** Every record of the final plan is the sorted record with its subnet filled in, and is Allocated. */
  lemma PlanRecord(requests: seq<Request>, start: int, base: nat, k: nat)
    requires Admissible(requests, base) && k < |requests|
    ensures var r := Plan(requests, start, base)[k];
      r.(subnet := None) == SortedRecords(requests)[k] && Allocated(r)
  {
    var n := |requests|;
    var sorted := SortedRecords(requests);
    var s := EffectiveStart(start, n);
    var b := Block(Prefixes(Rotated(sorted, s)), StartCursor(sorted, s, base), Turn(k, s, n));
    PlanAt(requests, start, base, k);
    BlockOfRecord(requests, base, s, k);
    SortedSized(requests, k);
    RecordWithBlock(sorted[k], b);
  }

  /** A well-sized record given a valid block of its own prefix. */
  lemma RecordWithBlock(r0: Record, b: Network)
    requires WellSized(r0) && r0.subnet == None && Valid(b) && b.prefix == PrefixOf(r0)
    ensures var r := r0.(subnet := Some(b)); r.(subnet := None) == r0 && Allocated(r)
  {
    BlockAllocated(b, PrefixOf(r0), r0.hosts, r0.totalHosts);
  }

  lemma BlockAllocated(b: Network, p: nat, hosts: nat, total: nat)
    requires Valid(b) && b.prefix == p && p <= 29 && Pow2(32 - p) == total && total == TotalHosts(hosts)
    ensures AllocatedBlock(b, p, hosts, total)
  {
    UsableBlock(b);
  }

  /** Record k of the plan is sorted record k with the block of iteration Turn(k). */
  lemma PlanAt(requests: seq<Request>, start: int, base: nat, k: nat)
    requires k < |requests|
    ensures var n := |requests|;
      var sorted := SortedRecords(requests);
      var s := EffectiveStart(start, n);
      var ps := Prefixes(Rotated(sorted, s));
      Plan(requests, start, base)[k] ==
        sorted[k].(subnet := Some(Block(ps, StartCursor(sorted, s, base), Turn(k, s, n))))
  {
  }

  lemma SortedWellSized(requests: seq<Request>, base: nat, k: nat)
    requires Admissible(requests, base) && k < |requests|
    ensures WellSized(SortedRecords(requests)[k])
  {
    SortedPrefixesOk(requests, base);
    assert SortedRecords(requests)[k] in SortedRecords(requests);
  }

  /** The record allocated at iteration Turn(k) is record k. */
  lemma RotatedAtTurn<T>(recs: seq<T>, s: nat, k: nat)
    requires s < |recs| && k < |recs|
    ensures Rotated(recs, s)[Turn(k, s, |recs|)] == recs[k]
  {
  }

  /** A block of at least eight addresses: gateway network + 1, usable range network + 1 to broadcast - 1. */
  lemma UsableBlock(b: Network)
    requires Valid(b) && b.prefix <= 29
    ensures Gateway(b) == b.base + 1 && UsableRange(b) == (b.base + 1, Broadcast(b) - 1)
  {
  }

  lemma {:induction false} TotalsAppend(a: seq<Record>, b: seq<Record>)
    ensures Totals(a + b) == Totals(a) + Totals(b)
    decreases b
  {
    if b == [] {
      assert a + b == a;
    } else {
      assert (a + b)[..|a + b| - 1] == a + b[..|b| - 1];
      TotalsAppend(a, b[..|b| - 1]);
    }
  }

  /** A permutation of records has the same total size. */
  lemma {:induction false} TotalsPermutation(a: seq<Record>, b: seq<Record>)
    requires multiset(a) == multiset(b)
    ensures Totals(a) == Totals(b)
  {
    if a != [] {
      var x := a[|a| - 1];
      assert x in multiset(b);
      var j :| 0 <= j < |b| && b[j] == x;
      var b' := b[..j] + b[j + 1..];
      RemoveMatching(a, b, j);
      TotalsPermutation(a[..|a| - 1], b');
      assert b == b[..j] + [x] + b[j + 1..];
      TotalsRemove(b[..j], x, b[j + 1..]);
      TotalsLast(a);
    }
  }

  /** Taking the last of a and a matching element of b leaves equal multisets. */
  lemma RemoveMatching(a: seq<Record>, b: seq<Record>, j: nat)
    requires multiset(a) == multiset(b) && a != [] && j < |b| && b[j] == a[|a| - 1]
    ensures multiset(a[..|a| - 1]) == multiset(b[..j] + b[j + 1..])
  {
    var x := a[|a| - 1];
    assert a == a[..|a| - 1] + [x];
    assert b == b[..j] + [x] + b[j + 1..];
    var ma := multiset(a[..|a| - 1]);
    var mb := multiset(b[..j] + b[j + 1..]);
    assert multiset(a) == ma + multiset{x};
    assert multiset(b) == mb + multiset{x};
    forall y
      ensures ma[y] == mb[y]
    {
      assert (ma + multiset{x})[y] == (mb + multiset{x})[y];
    }
  }

  lemma TotalsRemove(left: seq<Record>, x: Record, right: seq<Record>)
    ensures Totals(left + [x] + right) == Totals(left + right) + x.totalHosts
  {
    TotalsAppend(left + [x], right);
    TotalsSnoc(left, x);
    TotalsAppend(left, right);
  }

  lemma TotalsSnoc(left: seq<Record>, x: Record)
    ensures Totals(left + [x]) == Totals(left) + x.totalHosts
  {
    assert (left + [x])[..|left|] == left;
  }

  lemma TotalsLast(a: seq<Record>)
    requires a != []
    ensures Totals(a) == Totals(a[..|a| - 1]) + a[|a| - 1].totalHosts
  {
  }

  lemma {:induction false} TotalsOfSized(requests: seq<Request>)
    ensures Totals(SizedAll(requests)) == Demand(requests)
  {
    if requests != [] {
      var init := requests[..|requests| - 1];
      TotalsOfSized(init);
      assert SizedAll(requests)[..|requests| - 1] == SizedAll(init);
    }
  }

  lemma {:induction false} SpanOfPrefixes(recs: seq<Record>)
    requires forall r :: r in recs ==> WellSized(r)
    ensures Span(Prefixes(recs)) == Totals(recs)
  {
    if recs != [] {
      var k := |recs| - 1;
      var ps := Prefixes(recs);
      var init := recs[..k];
      assert forall r :: r in init ==> r in recs;
      SpanOfPrefixes(init);
      assert ps[..k] == Prefixes(init);
      LastBlockSize(recs);
    }
  }

  lemma LastBlockSize(recs: seq<Record>)
    requires recs != [] && recs[|recs| - 1] in recs && WellSized(recs[|recs| - 1])
    ensures var ps := Prefixes(recs); Pow2(32 - ps[|ps| - 1]) == recs[|recs| - 1].totalHosts
  {
  }

  /** Sorting keeps the total size: the sum of total_hosts is the demand. */
  lemma SortedTotals(requests: seq<Request>)
    ensures Totals(SortedRecords(requests)) == Demand(requests)
  {
    TotalsPermutation(SortedRecords(requests), SizedAll(requests));
    TotalsOfSized(requests);
  }

  lemma RotatedTotals(recs: seq<Record>, s: nat)
    requires s <= |recs|
    ensures Totals(Rotated(recs, s)) == Totals(recs)
  {
    TotalsSwap(recs[..s], recs[s..]);
    assert recs[..s] + recs[s..] == recs;
  }

  lemma TotalsSwap(a: seq<Record>, b: seq<Record>)
    ensures Totals(b + a) == Totals(a + b)
  {
    TotalsAppend(b, a);
    TotalsAppend(a, b);
  }

  /** Whatever the start, the blocks together hold exactly the demanded addresses. */
  lemma RotatedSpan(requests: seq<Request>, base: nat, s: nat)
    requires Admissible(requests, base) && s < |requests|
    ensures var ps := Prefixes(Rotated(SortedRecords(requests), s));
      PrefixesOk(ps) && |ps| == |requests| && Span(ps) == Demand(requests)
  {
    var rot := Rotated(SortedRecords(requests), s);
    RotatedWellSized(requests, base, s);
    SpanOfPrefixes(rot);
    RotatedTotals(SortedRecords(requests), s);
    SortedTotals(requests);
  }

  /** Under the overflow precondition every block lies inside the IPv4 address space. */
  lemma BlockInsideAddressSpace(requests: seq<Request>, base: nat, s: nat, i: nat)
    requires Admissible(requests, base) && s < |requests| && i < |requests|
    ensures var sorted := SortedRecords(requests);
      var ps := Prefixes(Rotated(sorted, s));
      PrefixesOk(ps) && |ps| == |requests| && Valid(Block(ps, StartCursor(sorted, s, base), i))
  {
    var sorted := SortedRecords(requests);
    var ps := Prefixes(Rotated(sorted, s));
    var c0 := StartCursor(sorted, s, base);
    RotatedSpan(requests, base, s);
    CursorBound(ps, c0, i + 1);
    SpanPrefix(ps, i + 1);
    BlockShape(ps, c0, i);
    var b := Block(ps, c0, i);
    assert Broadcast(b) < c0 + Span(ps);
  }

  // ---------------------------------------------------------------------
  // Start index 0 against a rotated start

  /** Largest first means prefixes never decrease along the sorted list. */
  lemma SortedPrefixesNonDecreasing(requests: seq<Request>, base: nat)
    requires Admissible(requests, base)
    ensures NonDecreasing(Prefixes(SortedRecords(requests)))
  {
    var ps := Prefixes(SortedRecords(requests));
    forall i, j | 0 <= i < j < |ps|
      ensures ps[i] <= ps[j]
    {
      PrefixPair(requests, base, i, j);
    }
  }

  lemma PrefixPair(requests: seq<Request>, base: nat, i: nat, j: nat)
    requires Admissible(requests, base) && i < j < |requests|
    ensures var ps := Prefixes(SortedRecords(requests)); ps[i] <= ps[j]
  {
    var sorted := SortedRecords(requests);
    SortedWellSized(requests, base, i);
    SortedWellSized(requests, base, j);
    SortedPair(requests, i, j);
    LargerBlockShorterPrefix(sorted[i], sorted[j]);
  }

  /** Of two well-sized records, the one with more addresses has the shorter prefix. */
  lemma LargerBlockShorterPrefix(a: Record, b: Record)
    requires WellSized(a) && WellSized(b) && a.totalHosts >= b.totalHosts
    ensures PrefixOf(a) <= PrefixOf(b)
  {
    WellSizedPrefix(a);
    WellSizedPrefix(b);
    LargerPowerShorterPrefix(PrefixOf(a), PrefixOf(b));
  }

  lemma WellSizedPrefix(r: Record)
    requires WellSized(r)
    ensures PrefixOf(r) <= 29 && Pow2(32 - PrefixOf(r)) == r.totalHosts
  {
  }

  lemma LargerPowerShorterPrefix(p: nat, q: nat)
    requires p <= 32 && q <= 32 && Pow2(32 - p) >= Pow2(32 - q)
    ensures p <= q
  {
    if p > q {
      Pow2Monotone(32 - p + 1, 32 - q);
      assert false;
    }
  }

  /**
   * With start index 0 the largest block comes first and the base is rounded
   * to its prefix, so every block begins exactly at the previous broadcast
   * plus one: the plan is contiguous and no two blocks overlap.
   */
  lemma StartZeroContiguous(requests: seq<Request>, base: nat)
    requires Admissible(requests, base) && |requests| > 0
    ensures var sorted := SortedRecords(requests);
      var ps := Prefixes(sorted);
      var c0 := StartCursor(sorted, 0, base);
      (forall i :: 0 <= i < |ps| ==> Block(ps, c0, i).base == Cursor(ps, c0, i)) &&
      (forall i :: 0 < i < |ps| ==> Block(ps, c0, i).base == Broadcast(Block(ps, c0, i - 1)) + 1) &&
      (forall i, j :: 0 <= i < j < |ps| ==> Broadcast(Block(ps, c0, i)) < Block(ps, c0, j).base)
  {
    var sorted := SortedRecords(requests);
    var ps := Prefixes(sorted);
    var c0 := StartCursor(sorted, 0, base);
    SortedPrefixesNonDecreasing(requests, base);
    assert c0 % Pow2(32 - ps[0]) == 0;
    forall i | 0 <= i < |ps|
      ensures Block(ps, c0, i).base == Cursor(ps, c0, i)
    {
      AlignedChain(ps, c0, i);
    }
    AlignedChainContiguous(ps, c0);
  }

  /** With the start at 0, record k holds the block made at iteration k. */
  lemma PlanAtZero(requests: seq<Request>, start: int, base: nat, k: nat)
    requires k < |requests| && EffectiveStart(start, |requests|) == 0
    ensures var sorted := SortedRecords(requests);
      Plan(requests, start, base)[k].subnet == Some(Block(Prefixes(sorted), StartCursor(sorted, 0, base), k))
  {
    var sorted := SortedRecords(requests);
    PlanAt(requests, start, base, k);
    assert Rotated(sorted, 0) == sorted;
  }

  /** Every record holds a subnet with a prefix of at most 32. */
  ghost predicate HasSubnets(plan: seq<Record>) {
    forall i :: 0 <= i < |plan| ==> plan[i].subnet.Some? && plan[i].subnet.value.prefix <= 32
  }

  /** Each subnet begins right after the broadcast address of the one before it. */
  ghost predicate Contiguous(plan: seq<Record>) {
    HasSubnets(plan) &&
    forall i :: 0 < i < |plan| ==> plan[i].subnet.value.base == Broadcast(plan[i - 1].subnet.value) + 1
  }

  /** The subnets lie in increasing order and no two share an address. */
  ghost predicate Disjoint(plan: seq<Record>) {
    HasSubnets(plan) &&
    forall i, j :: 0 <= i < j < |plan| ==> Broadcast(plan[i].subnet.value) < plan[j].subnet.value.base
  }

  /** The first subnet is the base address with the host bits of its prefix cleared. */
  ghost predicate FirstAtBase(plan: seq<Record>, base: nat) {
    |plan| > 0 && plan[0].subnet.Some? && plan[0].subnet.value.prefix <= 32 &&
    plan[0].subnet.value.base == ToNetwork(base, plan[0].subnet.value.prefix).base
  }

  /**
   * The plan itself with start index 0 (or an out-of-range start): the
   * first subnet begins at the base rounded down to its prefix, every later
   * one at the previous broadcast plus one, and no two subnets overlap.
   */
  lemma StartZeroPlan(requests: seq<Request>, start: int, base: nat)
    requires Admissible(requests, base) && |requests| > 0 && EffectiveStart(start, |requests|) == 0
    ensures var plan := Plan(requests, start, base);
      (forall i :: 0 <= i < |plan| ==> Allocated(plan[i])) &&
      FirstAtBase(plan, base) && Contiguous(plan) && Disjoint(plan)
  {
    var plan := Plan(requests, start, base);
    var sorted := SortedRecords(requests);
    var ps := Prefixes(sorted);
    var c0 := StartCursor(sorted, 0, base);
    PlanAllocated(requests, start, base);
    StartZeroSubnets(requests, start, base);
    StartZeroContiguous(requests, base);
    StartZeroFirst(requests, base);
    ChainOfSubnets(plan, ps, c0);
  }

  /** Every record of the plan is Allocated. */
  lemma PlanAllocated(requests: seq<Request>, start: int, base: nat)
    requires Admissible(requests, base) && |requests| > 0
    ensures var plan := Plan(requests, start, base);
      forall i :: 0 <= i < |plan| ==> Allocated(plan[i])
  {
    var plan := Plan(requests, start, base);
    forall i | 0 <= i < |plan|
      ensures Allocated(plan[i])
    {
      PlanRecord(requests, start, base, i);
    }
  }

  lemma StartZeroSubnets(requests: seq<Request>, start: int, base: nat)
    requires |requests| > 0 && EffectiveStart(start, |requests|) == 0
    ensures var plan := Plan(requests, start, base);
      var sorted := SortedRecords(requests);
      forall i :: 0 <= i < |plan| ==> plan[i].subnet == Some(Block(Prefixes(sorted), StartCursor(sorted, 0, base), i))
  {
    var plan := Plan(requests, start, base);
    var sorted := SortedRecords(requests);
    forall i | 0 <= i < |plan|
      ensures plan[i].subnet == Some(Block(Prefixes(sorted), StartCursor(sorted, 0, base), i))
    {
      PlanAtZero(requests, start, base, i);
    }
  }

  /** Records holding the blocks of a contiguous chain, in chain order, are contiguous themselves. */
  lemma ChainOfSubnets(plan: seq<Record>, ps: seq<nat>, c0: nat)
    requires PrefixesOk(ps) && |plan| == |ps|
    requires forall i :: 0 <= i < |plan| ==> plan[i].subnet == Some(Block(ps, c0, i))
    requires forall i :: 0 < i < |ps| ==> Block(ps, c0, i).base == Broadcast(Block(ps, c0, i - 1)) + 1
    requires forall i, j :: 0 <= i < j < |ps| ==> Broadcast(Block(ps, c0, i)) < Block(ps, c0, j).base
    ensures Contiguous(plan) && Disjoint(plan)
    ensures |plan| > 0 ==> plan[0].subnet == Some(Block(ps, c0, 0))
  {
  }

  /** With start 0 the first block is the base with the host bits of the first prefix cleared. */
  lemma StartZeroFirst(requests: seq<Request>, base: nat)
    requires Admissible(requests, base) && |requests| > 0
    ensures var sorted := SortedRecords(requests);
      var ps := Prefixes(sorted);
      var b := Block(ps, StartCursor(sorted, 0, base), 0);
      b.base == ToNetwork(base, b.prefix).base
  {
    var sorted := SortedRecords(requests);
    var ps := Prefixes(sorted);
    SortedWellSized(requests, base, 0);
    ToNetworkTwice(base, ps[0], ps[0]);
  }
}
