/**
 * Capacity sizing (sumarizar.py, lines 4-8 and 86-88): a host count gets a
 * 20% margin plus two, is rounded up to a power of two, and that block size
 * becomes a prefix written as "/p".
 */
module Sizing {
  import opened Wrappers
  import opened Ipv4
  import opened Decimal

  /** total_equipos = ceil(equipos * 1.2) + 2, in integers: ceil(6h / 5) == (6h + 4) / 5. */
  function WithMargin(hosts: nat): (total: nat)
    ensures total >= 2
    ensures 5 * (total - 2) >= 6 * hosts > 5 * (total - 3)
  {
    (6 * hosts + 4) / 5 + 2
  }

  /** math.ceil(math.log2(x)): the least k with x <= 2^k. */
  function CeilLog2(x: nat): (k: nat)
    requires x >= 1
    ensures x <= Pow2(k)
    ensures k == 0 || Pow2(k - 1) < x
  {
    if x == 1 then 0 else 1 + CeilLog2((x + 1) / 2)
  }

  lemma CeilLog2Least(x: nat, k: nat)
    requires x >= 1 && x <= Pow2(k)
    ensures CeilLog2(x) <= k
  {
    var c := CeilLog2(x);
    if c > k {
      Pow2Monotone(k, c - 1);
      assert false;
    }
  }

  /** The logarithm of a power of two is exact. */
  lemma CeilLog2OfPow2(k: nat)
    ensures CeilLog2(Pow2(k)) == k
  {
    var x := Pow2(k);
    var c := CeilLog2(x);
    CeilLog2Least(x, k);
    if c < k {
      Pow2Monotone(c + 1, k);
      assert false;
    }
  }

  /** total_hosts = 2 ** ceil(log2(total_equipos)) (line 87). */
  function TotalHosts(hosts: nat): (total: nat)
    ensures WithMargin(hosts) <= total < 2 * WithMargin(hosts)
    ensures total == Pow2(CeilLog2(total))
  {
    var k := CeilLog2(WithMargin(hosts));
    CeilLog2OfPow2(k);
    Pow2(k)
  }

  /** No smaller power of two holds the host count with its margin. */
  lemma TotalHostsIsLeast(hosts: nat, k: nat)
    requires WithMargin(hosts) <= Pow2(k)
    ensures TotalHosts(hosts) <= Pow2(k)
  {
    CeilLog2Least(WithMargin(hosts), k);
    Pow2Monotone(CeilLog2(WithMargin(hosts)), k);
  }

  /** A larger margin never gets a smaller block: sorting by margin sorts by block size. */
  lemma TotalHostsMonotone(h1: nat, h2: nat)
    requires WithMargin(h1) <= WithMargin(h2)
    ensures TotalHosts(h1) <= TotalHosts(h2)
  {
    TotalHostsIsLeast(h1, CeilLog2(WithMargin(h2)));
  }

  /** The prefix the mask text "/p" stands for once read back, or None when ip_network would reject it. */
  function MaskPrefix(mask: string): (p: Option<nat>)
    ensures p.Some? ==> p.value <= 32
  {
    if |mask| >= 2 && mask[0] == '/' && IsDigits(mask[1..]) && Value(mask[1..]) <= 32
    then Some(Value(mask[1..]))
    else None
  }

  /** calcular_mascara(total): "/" followed by 32 - ceil(log2(total)), possibly negative. */
  function MaskFor(total: nat): (mask: string)
    requires total >= 1
    ensures |mask| >= 2 && mask[0] == '/'
    ensures CeilLog2(total) <= 32 ==> MaskPrefix(mask) == Some(32 - CeilLog2(total))
    ensures CeilLog2(total) > 32 ==> MaskPrefix(mask) == None
  {
    var bits := 32 - CeilLog2(total);
    if bits >= 0 then
      var digits := Digits(bits);
      ValueOfDigits(bits);
      assert ("/" + digits)[1..] == digits;
      "/" + digits
    else
      assert ("/-" + Digits(-bits))[1] == '-';
      "/-" + Digits(-bits)
  }

  /**
   * For every host count the program accepts (more than two), the block
   * holds at least eight addresses, so its prefix is at most /29, and the
   * mask text reads back as the prefix whose block size is total_hosts.
   */
  lemma SizedBlock(hosts: nat)
    requires hosts > 2 && TotalHosts(hosts) <= AddressSpace
    ensures TotalHosts(hosts) >= 8
    ensures MaskPrefix(MaskFor(TotalHosts(hosts))).Some?
    ensures var p := MaskPrefix(MaskFor(TotalHosts(hosts))).value;
      p <= 29 && Pow2(32 - p) == TotalHosts(hosts)
  {
    var total := TotalHosts(hosts);
    var k := CeilLog2(total);
    assert total == Pow2(k);
    assert WithMargin(hosts) >= 6;
    SmallPowers();
    if k <= 2 {
      Pow2Monotone(k, 2);
      assert false;
    }
    Pow2Monotone(3, k);
    Pow2Of32();
    CeilLog2Least(total, 32);
    var p := 32 - k;
    assert MaskPrefix(MaskFor(total)) == Some(p);
    assert 32 - p == k;
  }

  /** The worked figures: 10 hosts need 14 addresses, a /28 block of 16 addresses. */
  lemma SizingTenHosts()
    ensures WithMargin(10) == 14 && TotalHosts(10) == 16 && MaskFor(16) == "/28"
  {
    SmallPowers();
    SizingExample(10, 4);
    PrefixTexts();
  }

  /** 50 hosts need 62 addresses, a /26 block of 64 addresses. */
  lemma SizingFiftyHosts()
    ensures WithMargin(50) == 62 && TotalHosts(50) == 64 && MaskFor(64) == "/26"
  {
    SmallPowers();
    SizingExample(50, 6);
    PrefixTexts();
  }

  /** The smallest accepted count, 3 hosts, needs 6 addresses, a /29 block of 8. */
  lemma SizingThreeHosts()
    ensures WithMargin(3) == 6 && TotalHosts(3) == 8 && MaskFor(8) == "/29"
  {
    SmallPowers();
    SizingExample(3, 3);
    PrefixTexts();
  }

  lemma PrefixTexts()
    ensures Digits(26) == "26" && Digits(28) == "28" && Digits(29) == "29"
  {
  }

  lemma SmallPowers()
    ensures Pow2(2) == 4 && Pow2(3) == 8 && Pow2(4) == 16 && Pow2(5) == 32 && Pow2(6) == 64
  {
    assert Pow2(2) == 4;
    assert Pow2(4) == 16;
  }

  lemma SizingExample(hosts: nat, k: nat)
    requires 1 <= k <= 32 && Pow2(k - 1) < WithMargin(hosts) <= Pow2(k)
    ensures TotalHosts(hosts) == Pow2(k)
    ensures MaskFor(Pow2(k)) == "/" + Digits(32 - k)
  {
    var m := WithMargin(hosts);
    var c := CeilLog2(m);
    CeilLog2Least(m, k);
    if c < k {
      Pow2Monotone(c, k - 1);
      assert false;
    }
    assert c == k;
    CeilLog2OfPow2(k);
    var bits := 32 - CeilLog2(Pow2(k));
    assert bits == 32 - k;
  }
}
