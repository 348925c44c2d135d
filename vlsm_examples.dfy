/**
 * Two concrete runs of the allocator on requests A (50 hosts) and B (10
 * hosts) from base 192.168.4.0: with start index 0 the blocks are laid
 * back to back; with start index 1 the smaller block is handed out first,
 * the cursor is then rounded back down to the base, and A's /26 swallows
 * B's /28 without anything noticing.
 */
module VlsmExamples {
  import opened Wrappers
  import opened Ipv4
  import opened Sizing
  import opened Decimal
  import StableSort
  import opened Vlsm

  /** 192.168.4.0 */
  const Base: nat := 0xC0A8_0400

  function Requests(): seq<Request> {
    [Request("A", 50), Request("B", 10)]
  }

  function RecordA(): Record {
    Record("A", 50, 62, "/26", 64, None)
  }

  function RecordB(): Record {
    Record("B", 10, 14, "/28", 16, None)
  }

  lemma SizedA()
    ensures Sized(Request("A", 50)) == RecordA()
  {
    SizingFiftyHosts();
  }

  lemma SizedB()
    ensures Sized(Request("B", 10)) == RecordB()
  {
    SizingTenHosts();
  }

  /** Sizing: A needs a /26 of 64 addresses, B a /28 of 16. */
  lemma ExampleSized()
    ensures SizedAll(Requests()) == [RecordA(), RecordB()]
  {
    SizedA();
    SizedB();
    SizedPair(Request("A", 50), Request("B", 10), RecordA(), RecordB());
  }

  lemma SizedPair(q1: Request, q2: Request, r1: Record, r2: Record)
    requires Sized(q1) == r1 && Sized(q2) == r2
    ensures SizedAll([q1, q2]) == [r1, r2]
  {
  }

  /** A's larger margin puts it first. */
  lemma ExampleInOrder()
    ensures StableSort.SortedBy([RecordA(), RecordB()], LargestFirst)
  {
  }

  /** Sorting keeps A before B. */
  lemma ExampleSorted()
    ensures SortedRecords(Requests()) == [RecordA(), RecordB()]
  {
    ExampleSized();
    ExampleInOrder();
    StableSort.SortOfSorted([RecordA(), RecordB()], LargestFirst);
  }

  /** The two blocks together fit above the base. */
  lemma ExampleAdmissible()
    ensures Admissible(Requests(), Base)
  {
    SizingFiftyHosts();
    SizingTenHosts();
    assert Requests()[..1] == [Request("A", 50)];
    assert Demand(Requests()) == 80;
  }

  /** Both mask texts read back as their prefixes. */
  lemma ExamplePrefixes()
    ensures PrefixOf(RecordA()) == 26 && PrefixOf(RecordB()) == 28
  {
    assert "/26"[1..] == "26" && "/28"[1..] == "28";
    assert Value("26") == 26 by {
      assert "26"[..1] == "2";
    }
    assert Value("28") == 28 by {
      assert "28"[..1] == "2";
    }
  }

  /** The cursor chain for prefixes /26 then /28 from the base. */
  lemma ChainLargeFirst()
    ensures Block([26, 28], Base, 0) == Network(Base, 26)
    ensures Block([26, 28], Base, 1) == Network(Base + 64, 28)
  {
    SmallPowers();
    ToNetworkUnique(Base, Network(Base, 26));
    ToNetworkUnique(Base + 64, Network(Base + 64, 26));
    ToNetworkUnique(Base + 64, Network(Base + 64, 28));
    assert Cursor([26, 28], Base, 1) == Base + 64;
  }

  /** The cursor chain for prefixes /28 then /26 from the base. */
  lemma ChainSmallFirst()
    ensures Block([28, 26], Base, 0) == Network(Base, 28)
    ensures Block([28, 26], Base, 1) == Network(Base, 26)
  {
    SmallPowers();
    ToNetworkUnique(Base, Network(Base, 28));
    ToNetworkUnique(Base + 16, Network(Base + 16, 28));
    ToNetworkUnique(Base + 16, Network(Base, 26));
    assert Cursor([28, 26], Base, 1) == Base + 16;
  }

  /** Start index 0: A gets 192.168.4.0/26 and B gets 192.168.4.64/28, side by side. */
  lemma StartZeroExample()
    ensures Plan(Requests(), 0, Base) ==
      [RecordA().(subnet := Some(Network(Base, 26))), RecordB().(subnet := Some(Network(Base + 64, 28)))]
  {
    var sorted := [RecordA(), RecordB()];
    ExampleSorted();
    assert Plan(Requests(), 0, Base) == RotationPlan(sorted, 0, Base);
    StartZeroSetup();
    ExamplePlan(sorted, 0, [26, 28]);
    ChainLargeFirst();
  }

  lemma StartZeroSetup()
    ensures var sorted := [RecordA(), RecordB()];
      Prefixes(Rotated(sorted, 0)) == [26, 28] && StartCursor(sorted, 0, Base) == Base
  {
    var sorted := [RecordA(), RecordB()];
    ExamplePrefixes();
    SmallPowers();
    ToNetworkUnique(Base, Network(Base, 26));
    assert Rotated(sorted, 0) == sorted;
  }

  /**
   * Start index 1: B is allocated first at 192.168.4.0/28, the cursor moves
   * to 192.168.4.16, and A's /26 is that cursor with its host bits cleared,
   * 192.168.4.0/26 again, which contains B's block.
   */
  lemma RotatedStartOverlaps()
    ensures Plan(Requests(), 1, Base) ==
      [RecordA().(subnet := Some(Network(Base, 26))), RecordB().(subnet := Some(Network(Base, 28)))]
    ensures SubnetOf(Network(Base, 28), Network(Base, 26))
  {
    var sorted := [RecordA(), RecordB()];
    ExampleSorted();
    assert Plan(Requests(), 1, Base) == RotationPlan(sorted, 1, Base);
    StartOneSetup();
    ExamplePlan(sorted, 1, [28, 26]);
    ChainSmallFirst();
    SmallPowers();
  }

  lemma StartOneSetup()
    ensures var sorted := [RecordA(), RecordB()];
      Prefixes(Rotated(sorted, 1)) == [28, 26] && StartCursor(sorted, 1, Base) == Base
  {
    var sorted := [RecordA(), RecordB()];
    ExamplePrefixes();
    SmallPowers();
    ToNetworkUnique(Base, Network(Base, 28));
    assert Rotated(sorted, 1) == [RecordB(), RecordA()];
  }

  /** The plan of the two example records, once their rotated prefixes are known. */
  lemma ExamplePlan(sorted: seq<Record>, s: nat, ps: seq<nat>)
    requires sorted == [RecordA(), RecordB()] && s < 2
    requires Prefixes(Rotated(sorted, s)) == ps && StartCursor(sorted, s, Base) == Base
    ensures PrefixesOk(ps) && |ps| == 2
    ensures RotationPlan(sorted, s, Base) ==
      [RecordA().(subnet := Some(Block(ps, Base, Turn(0, s, 2)))),
       RecordB().(subnet := Some(Block(ps, Base, Turn(1, s, 2))))]
  {
    var plan := RotationPlan(sorted, s, Base);
    assert plan[0] == RecordA().(subnet := Some(Block(ps, Base, Turn(0, s, 2))));
    assert plan[1] == RecordB().(subnet := Some(Block(ps, Base, Turn(1, s, 2))));
  }
}
