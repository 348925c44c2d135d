/**
 * The VLSM allocator inside main() of sumarizar.py (lines 82-160): every
 * requested network is sized, the list is sorted largest first, and blocks
 * are handed out in rotation from a chosen start, each block being the
 * cursor with its host bits cleared, the cursor then moving to the address
 * after the block. Nothing checks that blocks do not overlap.
 */
module Vlsm {
  import opened Wrappers
  import opened Ipv4
  import opened Sizing
  import StableSort

  /** A network the user asks for: its name and how many hosts it must hold. */
  datatype Request = Request(name: string, hosts: nat)

  /**
   * The dictionary kept per network (lines 89-96): name, hosts, hosts with
   * margin, mask text, block size, and the subnet assigned to it later.
   */
  datatype Record = Record(
    name: string, hosts: nat, withMargin: nat, mask: string, totalHosts: nat, subnet: Option<Network>)

  /** The record built for one request (lines 86-96), not yet assigned a subnet. */
  function Sized(q: Request): Record {
    var total := TotalHosts(q.hosts);
    Record(q.name, q.hosts, WithMargin(q.hosts), MaskFor(total), total, None)
  }

  function SizedAll(requests: seq<Request>): (recs: seq<Record>)
    ensures |recs| == |requests|
  {
    seq(|requests|, i requires 0 <= i < |requests| => Sized(requests[i]))
  }

  /** Sort key of redes.sort(key=total_equipos, reverse=True). */
  function LargestFirst(r: Record): int {
    -(r.withMargin as int)
  }

  /** The records after line 100. */
  function SortedRecords(requests: seq<Request>): (recs: seq<Record>) {
    StableSort.Sort(SizedAll(requests), LargestFirst)
  }

  /** Block size all requests need together: the sum of their total_hosts. */
  function Demand(requests: seq<Request>): nat {
    if requests == [] then 0 else Demand(requests[..|requests| - 1]) + TotalHosts(requests[|requests| - 1].hosts)
  }

  /** Lines 108-111: a start outside [0, n) is replaced by 0. */
  function EffectiveStart(start: int, n: nat): nat {
    if start < 0 || start >= n then 0 else start
  }

  /** The prefix a record's mask text is read back as (lines 118 and 131). */
  function PrefixOf(r: Record): nat {
    match MaskPrefix(r.mask)
    case Some(p) => p
    case None => 0 // ip_network would raise; never reached for sized records (see SortedPrefixesOk)
  }

  function Prefixes(recs: seq<Record>): (ps: seq<nat>)
    ensures |ps| == |recs| && PrefixesOk(ps)
  {
    seq(|recs|, i requires 0 <= i < |recs| => PrefixOf(recs[i]))
  }

  /** The records in the order they are allocated: from s to the end, then from the start. */
  function Rotated<T>(recs: seq<T>, s: nat): seq<T>
    requires s <= |recs|
  {
    recs[s..] + recs[..s]
  }

  /** The iteration at which record k is allocated when the rotation starts at s. */
  function Turn(k: nat, s: nat, n: nat): (t: nat)
    requires k < n && s < n
    ensures t < n
  {
    if k >= s then k - s else k + n - s
  }

  predicate PrefixesOk(ps: seq<nat>) {
    forall j :: 0 <= j < |ps| ==> ps[j] <= 32
  }

  /**
   * The cursor red_actual before iteration i: c0 at first, then after each
   * block the address network + num_addresses, canonicalised with the
   * block's own prefix (line 160).
   */
  function Cursor(ps: seq<nat>, c0: nat, i: nat): nat
    requires PrefixesOk(ps) && i <= |ps|
  {
    if i == 0 then c0
    else
      var b := ToNetwork(Cursor(ps, c0, i - 1), ps[i - 1]);
      ToNetwork(b.base + Size(b), b.prefix).base
  }

  /** Unfolds Cursor at i + 1 in terms of the block made at iteration i. */
  lemma CursorNext(ps: seq<nat>, c0: nat, i: nat, next: nat, p: nat)
    requires PrefixesOk(ps) && i < |ps| && p == ps[i]
    requires next == Block(ps, c0, i).base + Size(Block(ps, c0, i))
    ensures ToNetwork(next, p).base == Cursor(ps, c0, i + 1)
  {
  }

  /** The subnet created at iteration i (line 131). */
  function Block(ps: seq<nat>, c0: nat, i: nat): Network
    requires PrefixesOk(ps) && i < |ps|
  {
    ToNetwork(Cursor(ps, c0, i), ps[i])
  }

  /** The first cursor (line 118): the base address canonicalised with the starting record's prefix. */
  function StartCursor(sorted: seq<Record>, s: nat, base: nat): (c: nat)
    requires s < |sorted|
    ensures c <= base
  {
    var p := PrefixOf(sorted[s]);
    if p <= 32 then ToNetwork(base, p).base else base
  }

  /** The requirements main() establishes before allocating. */
  predicate Admissible(requests: seq<Request>, base: nat) {
    (forall i :: 0 <= i < |requests| ==> requests[i].hosts > 2) &&
    base + Demand(requests) <= AddressSpace
  }

  /**
   * The records after the allocation loop (lines 118-160) over the list
   * redes rotated from s: record k gets the block made at iteration Turn(k).
   */
  function RotationPlan(redes: seq<Record>, s: nat, base: nat): (plan: seq<Record>)
    requires s < |redes|
    ensures |plan| == |redes|
  {
    var n := |redes|;
    var ps := Prefixes(Rotated(redes, s));
    var c0 := StartCursor(redes, s, base);
    seq(n, k requires 0 <= k < n => redes[k].(subnet := Some(Block(ps, c0, Turn(k, s, n)))))
  }

  /** The records main() ends with, for at least one request. */
  function Plan(requests: seq<Request>, start: int, base: nat): (plan: seq<Record>)
    requires |requests| > 0
    ensures |plan| == |requests|
  {
    RotationPlan(SortedRecords(requests), EffectiveStart(start, |requests|), base)
  }

  /**
   * Lines 82-160 as one operation: build the records, sort them largest
   * first, clamp the start index, and assign the subnets in rotation,
   * storing each in its own record. No request (n == 0) is the IndexError
   * at line 118.
   */
  method Allocate(requests: seq<Request>, start: int, base: nat) returns (plan: Option<seq<Record>>)
    requires Admissible(requests, base)
    ensures plan == if |requests| == 0 then None else Some(Plan(requests, start, base))
  {
    var redes := SizeAll(requests);
    redes := StableSort.Sort(redes, LargestFirst);
    var n := |redes|;
    var s := EffectiveStart(start, n);
    if n == 0 {
      return None;
    }
    SortedPrefixesOk(requests, base);
    var withSubnets := AssignInRotation(redes, s, base);
    plan := Some(withSubnets);
  }

  /** Lines 82-97: one record per request, appended in input order. */
  method SizeAll(requests: seq<Request>) returns (redes: seq<Record>)
    ensures redes == SizedAll(requests)
  {
    redes := [];
    for i := 0 to |requests|
      invariant |redes| == i
      invariant forall j :: 0 <= j < i ==> redes[j] == Sized(requests[j])
    {
      redes := redes + [Sized(requests[i])];
    }
  }

  /**
   * Lines 118-160: from the cursor base/prefix(start), iteration i gives
   * record (s + i) mod n the cursor with that record's host bits cleared,
   * and moves the cursor past the block.
   */
  method AssignInRotation(redes: seq<Record>, s: nat, base: nat) returns (withSubnets: seq<Record>)
    requires s < |redes|
    requires forall r :: r in redes ==> MaskPrefix(r.mask).Some?
    ensures withSubnets == RotationPlan(redes, s, base)
  {
    var cursor := StartCursor(redes, s, base);
    withSubnets := redes;
    ProgressAtStart(redes, s, base);
    for i := 0 to |redes|
      invariant Progress(withSubnets, cursor, redes, s, base, i)
    {
      withSubnets, cursor := AssignSlot(withSubnets, cursor, redes, s, base, i);
    }
    ProgressAtEnd(withSubnets, cursor, redes, s, base);
  }

  /**
   * The loop state after i iterations: the cursor is Cursor(i), and exactly
   * the records allocated at iterations 0..i-1 hold their block.
   */
  ghost predicate Progress(t: seq<Record>, cursor: nat, redes: seq<Record>, s: nat, base: nat, i: nat)
    requires s < |redes|
  {
    var ps := Prefixes(Rotated(redes, s));
    var c0 := StartCursor(redes, s, base);
    i <= |redes| && cursor == Cursor(ps, c0, i) && AssignedUpTo(t, redes, Blocks(ps, c0), s, i)
  }

  lemma ProgressAtStart(redes: seq<Record>, s: nat, base: nat)
    requires s < |redes|
    ensures Progress(redes, StartCursor(redes, s, base), redes, s, base, 0)
  {
  }

  lemma ProgressAtEnd(t: seq<Record>, cursor: nat, redes: seq<Record>, s: nat, base: nat)
    requires s < |redes| && Progress(t, cursor, redes, s, base, |redes|)
    ensures t == RotationPlan(redes, s, base)
  {
    var ps := Prefixes(Rotated(redes, s));
    var c0 := StartCursor(redes, s, base);
    assert forall k :: 0 <= k < |redes| ==> t[k] == RotationPlan(redes, s, base)[k];
  }

  /**
   * One iteration of the loop at lines 125-160: record (s + i) mod n gets
   * the cursor with its host bits cleared, and the cursor moves to the
   * address after that block, canonicalised with the block's prefix.
   */
  method AssignSlot(table: seq<Record>, cursor: nat, redes: seq<Record>, s: nat, base: nat, i: nat)
    returns (table': seq<Record>, cursor': nat)
    requires s < |redes| && i < |redes|
    requires forall r :: r in redes ==> MaskPrefix(r.mask).Some?
    requires Progress(table, cursor, redes, s, base, i)
    ensures Progress(table', cursor', redes, s, base, i + 1)
  {
    ghost var ps := Prefixes(Rotated(redes, s));
    ghost var c0 := StartCursor(redes, s, base);
    var idx := (s + i) % |table|;
    TurnOfSlot(i, s, |table|);
    var red := table[idx];
    SlotPrefix(redes, s, i);
    var subred := ToNetwork(cursor, MaskPrefix(red.mask).value);
    AssignStep(table, redes, Blocks(ps, c0), s, i, subred);
    table' := table[idx := red.(subnet := Some(subred))];
    var next := subred.base + Size(subred);
    CursorNext(ps, c0, i, next, subred.prefix);
    cursor' := ToNetwork(next, subred.prefix).base;
  }

  /** The record handled at iteration i has a readable mask, the i-th prefix of the rotation. */
  lemma SlotPrefix(redes: seq<Record>, s: nat, i: nat)
    requires s < |redes| && i < |redes|
    requires forall r :: r in redes ==> MaskPrefix(r.mask).Some?
    ensures var r := redes[(s + i) % |redes|];
      MaskPrefix(r.mask).Some? && Prefixes(Rotated(redes, s))[i] == MaskPrefix(r.mask).value
  {
    RotatedAt(redes, s);
    assert redes[(s + i) % |redes|] in redes;
  }

  /** The blocks made at iterations 0..n-1. */
  ghost function Blocks(ps: seq<nat>, c0: nat): (blocks: seq<Network>)
    requires PrefixesOk(ps)
  {
    seq(|ps|, j requires 0 <= j < |ps| => Block(ps, c0, j))
  }

  /** After i iterations, exactly the records allocated at iterations 0..i-1 hold their block. */
  ghost predicate AssignedUpTo(t: seq<Record>, redes: seq<Record>, blocks: seq<Network>, s: nat, i: nat)
    requires |blocks| == |redes| && s < |redes|
  {
    var n := |redes|;
    |t| == n &&
    forall k :: 0 <= k < n ==>
      t[k] == (if Turn(k, s, n) < i then redes[k].(subnet := Some(blocks[Turn(k, s, n)])) else redes[k])
  }

  lemma AssignStep(t: seq<Record>, redes: seq<Record>, blocks: seq<Network>, s: nat, i: nat, subred: Network)
    requires |blocks| == |redes| && s < |redes| && i < |redes|
    requires AssignedUpTo(t, redes, blocks, s, i)
    requires subred == blocks[i]
    ensures (s + i) % |redes| < |t| && t[(s + i) % |redes|] == redes[(s + i) % |redes|]
    ensures AssignedUpTo(t[(s + i) % |redes| := t[(s + i) % |redes|].(subnet := Some(subred))], redes, blocks, s, i + 1)
  {
    TurnOfSlot(i, s, |redes|);
  }

  /** Rotation index arithmetic: slot (s + i) mod n is allocated at iteration i. */
  lemma TurnOfSlot(i: nat, s: nat, n: nat)
    requires i < n && s < n
    ensures (s + i) % n < n && Turn((s + i) % n, s, n) == i
    ensures forall k :: 0 <= k < n && k != (s + i) % n ==> Turn(k, s, n) != i
  {
    if s + i < n {
      DivModUnique(s + i, n, 0, s + i);
    } else {
      DivModUnique(s + i, n, 1, s + i - n);
    }
  }

  lemma RotatedAt<T>(recs: seq<T>, s: nat)
    requires s < |recs|
    ensures |Rotated(recs, s)| == |recs|
    ensures forall i :: 0 <= i < |recs| ==> Rotated(recs, s)[i] == recs[(s + i) % |recs|]
  {
    var n := |recs|;
    forall i | 0 <= i < n
      ensures Rotated(recs, s)[i] == recs[(s + i) % n]
    {
      if s + i < n {
        DivModUnique(s + i, n, 0, s + i);
      } else {
        DivModUnique(s + i, n, 1, s + i - n);
      }
    }
  }

  /**
   * A record as Sized builds it for an accepted host count: its mask reads
   * back as a prefix of at most /29 whose block holds total_hosts addresses.
   */
  ghost predicate WellSized(r: Record) {
    MaskPrefix(r.mask).Some? && PrefixOf(r) <= 29 && Pow2(32 - PrefixOf(r)) == r.totalHosts &&
    r.withMargin == WithMargin(r.hosts) && r.totalHosts == TotalHosts(r.hosts)
  }

  lemma SizedIsWellSized(q: Request)
    requires q.hosts > 2 && TotalHosts(q.hosts) <= AddressSpace
    ensures WellSized(Sized(q))
  {
    SizedBlock(q.hosts);
  }

  lemma {:induction false} DemandBound(requests: seq<Request>, j: nat)
    requires j < |requests|
    ensures TotalHosts(requests[j].hosts) <= Demand(requests)
  {
    if j < |requests| - 1 {
      DemandBound(requests[..|requests| - 1], j);
    }
  }

  lemma SortedPrefixesOk(requests: seq<Request>, base: nat)
    requires Admissible(requests, base)
    ensures forall r :: r in SortedRecords(requests) ==> WellSized(r) && MaskPrefix(r.mask).Some?
  {
    var sized := SizedAll(requests);
    forall r | r in SortedRecords(requests)
      ensures WellSized(r)
    {
      StableSort.SortMember(sized, LargestFirst, r);
      var j :| 0 <= j < |sized| && sized[j] == r;
      SizedRecordWellSized(requests, base, j);
    }
  }

  lemma SizedRecordWellSized(requests: seq<Request>, base: nat, j: nat)
    requires Admissible(requests, base) && j < |requests|
    ensures WellSized(SizedAll(requests)[j])
  {
    DemandBound(requests, j);
    SizedIsWellSized(requests[j]);
  }
}
