/**
 * Worked cases of sumarizar_redes and validar_redes_contiguas on blocks
 * of 10.0.0.0/24, including the inputs on which the one-bit-per-input
 * widening of sumarizar.py goes wrong. Each case takes its list as a
 * parameter equal to a fixed list, so that the sort is reasoned about
 * through its lemmas rather than evaluated.
 */
module AggregateExamples {
  import opened Ipv4
  import opened Aggregate
  import StableSort

  /** 10.0.0.0 */
  const Ten: nat := 0x0A00_0000

  /** 10.0.0.0/25 and 10.0.0.128/25 */
  function Halves(): seq<Network> {
    [Network(Ten, 25), Network(Ten + 128, 25)]
  }

  /** 10.0.0.0/26, 10.0.0.64/26 and 10.0.0.128/26 */
  function Quarters(): seq<Network> {
    [Network(Ten, 26), Network(Ten + 64, 26), Network(Ten + 128, 26)]
  }

  /** 10.0.0.0/25, 10.0.0.128/26 and 10.0.0.192/26 */
  function HalfAndQuarters(): seq<Network> {
    [Network(Ten, 25), Network(Ten + 128, 26), Network(Ten + 192, 26)]
  }

  /** 10.0.0.0/26 and 10.0.0.128/26 */
  function Gap(): seq<Network> {
    [Network(Ten, 26), Network(Ten + 128, 26)]
  }

  lemma Pow2Small()
    ensures Pow2(6) == 64 && Pow2(7) == 128 && Pow2(8) == 256 && Pow2(9) == 512
  {
  }

  /** The blocks used here are aligned and inside the address space. */
  lemma BlocksValid()
    ensures Valid(Network(Ten, 23)) && Valid(Network(Ten, 24))
    ensures Valid(Network(Ten, 25)) && Valid(Network(Ten + 128, 25))
    ensures Valid(Network(Ten, 26)) && Valid(Network(Ten + 64, 26))
    ensures Valid(Network(Ten + 128, 26)) && Valid(Network(Ten + 192, 26))
  {
    Pow2Small();
  }

  /** A list already in address order is its own sorted list. */
  lemma InOrder(nets: seq<Network>)
    requires |nets| > 0 && StableSort.SortedBy(nets, BaseKey)
    ensures SortByBase(nets) == nets && First(nets) == nets[0]
  {
    StableSort.SortOfSorted(nets, BaseKey);
  }

  lemma HalvesInOrder(nets: seq<Network>)
    requires nets == Halves()
    ensures AllValid(nets) && SortByBase(nets) == nets && First(nets) == nets[0]
  {
    BlocksValid();
    assert StableSort.SortedBy(nets, BaseKey);
    InOrder(nets);
  }

  lemma QuartersInOrder(nets: seq<Network>)
    requires nets == Quarters()
    ensures AllValid(nets) && SortByBase(nets) == nets && First(nets) == nets[0]
  {
    BlocksValid();
    assert StableSort.SortedBy(nets, BaseKey);
    InOrder(nets);
  }

  lemma HalfAndQuartersInOrder(nets: seq<Network>)
    requires nets == HalfAndQuarters()
    ensures AllValid(nets) && SortByBase(nets) == nets && First(nets) == nets[0]
  {
    BlocksValid();
    assert StableSort.SortedBy(nets, BaseKey);
    InOrder(nets);
  }

  lemma GapInOrder(nets: seq<Network>)
    requires nets == Gap()
    ensures AllValid(nets) && SortByBase(nets) == nets && First(nets) == nets[0]
  {
    BlocksValid();
    assert StableSort.SortedBy(nets, BaseKey);
    InOrder(nets);
  }

  /** One-bit widenings of 10.0.0.0/26 up to 10.0.0.0/23. */
  lemma TenSupernets()
    ensures Supernet(Network(Ten, 26)) == Network(Ten, 25)
    ensures Supernet(Network(Ten, 25)) == Network(Ten, 24)
    ensures Supernet(Network(Ten, 24)) == Network(Ten, 23)
  {
    Pow2Small();
  }

  /** Two halves of a /24 summarize to that /24. */
  lemma HalvesSummarize(nets: seq<Network>)
    requires nets == Halves()
    ensures AllValid(nets)
    ensures WidensCover(nets, First(nets), |nets|)
    ensures Widen(First(nets), |nets| - 1) == Network(Ten, 24)
  {
    HalvesInOrder(nets);
    TenSupernets();
    var w := Widen(nets[0], 1);
    assert w == Network(Ten, 24);
    assert CoversAll(nets, w);
  }

  /**
   * Three quarters of a /24 are rejected: the first widening gives
   * 10.0.0.0/25, which misses 10.0.0.128/26, although 10.0.0.0/24
   * contains all three.
   */
  lemma QuartersRejected(nets: seq<Network>)
    requires nets == Quarters()
    ensures AllValid(nets)
    ensures !WidensCover(nets, First(nets), |nets|)
    ensures Valid(Network(Ten, 24)) && CoversAll(nets, Network(Ten, 24))
  {
    QuartersInOrder(nets);
    TenSupernets();
    var w := Widen(nets[0], 1);
    assert w == Network(Ten, 25);
    assert !SubnetOf(nets[2], w);
  }

  /**
   * Here the first widening already covers, but a second one follows:
   * the result is 10.0.0.0/23 where 10.0.0.0/24 would do.
   */
  lemma HalfAndQuartersOverWide(nets: seq<Network>)
    requires nets == HalfAndQuarters()
    ensures AllValid(nets)
    ensures WidensCover(nets, First(nets), |nets|)
    ensures Widen(First(nets), |nets| - 1) == Network(Ten, 23)
    ensures CoversAll(nets, Network(Ten, 24))
    ensures SubnetOf(Network(Ten, 24), Network(Ten, 23)) && Network(Ten, 24) != Network(Ten, 23)
  {
    HalfAndQuartersInOrder(nets);
    TwoWidenings(nets[0]);
    HalfAndQuartersCovered(nets);
    Pow2Small();
  }

  lemma TwoWidenings(n: Network)
    requires n == Network(Ten, 25)
    ensures Widen(n, 1) == Network(Ten, 24) && Widen(n, 2) == Network(Ten, 23)
  {
    TenSupernets();
    assert Widen(n, 2) == Supernet(Widen(n, 1));
  }

  lemma HalfAndQuartersCovered(nets: seq<Network>)
    requires nets == HalfAndQuarters()
    ensures AllValid(nets) && CoversAll(nets, Network(Ten, 24)) && CoversAll(nets, Network(Ten, 23))
  {
    BlocksValid();
    Pow2Small();
  }

  /** The smallest covering network of the three quarters is 10.0.0.0/24. */
  lemma QuartersMinimal(nets: seq<Network>, r: Network)
    requires nets == Quarters()
    requires Valid(r) && AllValid(nets) && CoversAll(nets, r)
    requires forall m :: Valid(m) && CoversAll(nets, m) ==> SubnetOf(r, m)
    ensures r == Network(Ten, 24)
  {
    var n24 := Network(Ten, 24);
    QuartersRejected(nets);
    assert SubnetOf(r, n24);
    QuartersLeast(nets, r);
    SubnetOfAntisymmetric(r, n24);
  }

  lemma QuartersLeast(nets: seq<Network>, m: Network)
    requires nets == Quarters()
    requires Valid(m) && AllValid(nets) && CoversAll(nets, m)
    ensures SubnetOf(Network(Ten, 24), m)
  {
    QuartersChain(nets);
    assert nets[0] in nets;
    LeastCover(nets, nets[0], 2, m);
  }

  lemma QuartersChain(nets: seq<Network>)
    requires nets == Quarters()
    ensures AllValid(nets) && Valid(nets[0])
    ensures NoneCoverBefore(nets, nets[0], 2)
    ensures Widen(nets[0], 2) == Network(Ten, 24)
  {
    BlocksValid();
    TenSupernets();
    var first := nets[0];
    assert Widen(first, 0) == first;
    assert !SubnetOf(nets[1], first);
    var w1 := Widen(first, 1);
    assert w1 == Network(Ten, 25);
    assert !SubnetOf(nets[2], w1);
    assert Widen(first, 2) == Supernet(w1);
  }

  /** Two adjacent halves are contiguous. */
  lemma HalvesContiguous(nets: seq<Network>)
    requires nets == Halves()
    ensures AllValid(nets) && Chained(SortByBase(nets))
  {
    HalvesInOrder(nets);
    Pow2Small();
  }

  /** 10.0.0.0/26 and 10.0.0.128/26 leave a gap. */
  lemma GapNotContiguous(nets: seq<Network>)
    requires nets == Gap()
    ensures AllValid(nets) && !Chained(SortByBase(nets))
  {
    GapInOrder(nets);
    Pow2Small();
  }
}
