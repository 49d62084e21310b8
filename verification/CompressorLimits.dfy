/** Two ways in which the compressor fails on sketches with many rows, because products of 32-bit
    numbers wrap around: it refuses sliding sketches whose count then looks like that of a smaller
    flavor, and it allots too little memory for tables of 2^32 / 12 items or more. */
module CompressorLimits {
  import opened Words
  import opened U32Tables
  import opened CpcSketches
  import opened CpcRuns
  import opened CpcCompressors

  // ----- sketches that are refused -----

  /** A count whose product with 1000 comes out as a small number. */
  function WrappingCount(lgK: nat): nat {
    if lgK <= 20 then 4294968
    else if lgK == 21 then 8589935
    else if lgK == 22 then 17179870
    else if lgK == 23 then 34359739
    else if lgK == 24 then 68719477
    else if lgK == 25 then 137438954
    else 274877907
  }

  /** Such a count makes a sliding sketch, but gets a phase of the sketches before. */
  lemma WrongPhase(lgK: nat)
    requires 17 <= lgK <= MAX_LG_K
    ensures var c := WrappingCount(lgK);
            && DetermineFlavor(lgK, c) == Sliding && 8 * c < 467 * Pow2(lgK)
            && DeterminePseudoPhase(lgK, c) == 20
    ensures lgK >= 18 ==> 8 * WrappingCount(lgK) < OffsetFloor(lgK, OverfullOffset(lgK))
  {
    if lgK <= 20 {
      WrongPhaseTo20(lgK);
    } else if lgK <= 23 {
      WrongPhaseTo23(lgK);
    } else {
      WrongPhaseTo26(lgK);
    }
    LargePowers();
    hide Pow2, DeterminePseudoPhase;
  }

  lemma WrongPhaseTo20(lgK: nat)
    requires 17 <= lgK <= 20
    ensures DeterminePseudoPhase(lgK, WrappingCount(lgK)) == 20
  {
    LargePowers();
    hide Pow2, Shr;
  }

  lemma WrongPhaseTo23(lgK: nat)
    requires 21 <= lgK <= 23
    ensures DeterminePseudoPhase(lgK, WrappingCount(lgK)) == 20
  {
    LargePowers();
    hide Pow2, Shr;
  }

  lemma WrongPhaseTo26(lgK: nat)
    requires 24 <= lgK <= 26
    ensures DeterminePseudoPhase(lgK, WrappingCount(lgK)) == 20
  {
    LargePowers();
    hide Pow2, Shr;
  }

  /** For each test, a count of a sketch for which the product that wraps around decides it the other way. */
  lemma WrappedPhases()
    ensures DeterminePseudoPhase(25, 1084677002) == 16 && DeterminePseudoPhase(23, 431427497) == 17
    ensures DeterminePseudoPhase(20, 44209329) == 18 && DeterminePseudoPhase(25, 1474269246) == 19
    ensures DeterminePseudoPhase(17, 4541698) == 20 && DeterminePseudoPhase(25, 1597811715) == 20
    ensures DeterminePseudoPhase(17, 4569293) == 21 && DeterminePseudoPhase(25, 1792597959) == 21
    ensures DeterminePseudoPhase(21, 110430426) == 10
  {
    hide DeterminePseudoPhase;
    WrappedTo23();
    WrappedAt25();
    WrappedTruePhase();
  }

  lemma WrappedTo23()
    ensures DeterminePseudoPhase(23, 431427497) == 17 && DeterminePseudoPhase(20, 44209329) == 18
    ensures DeterminePseudoPhase(17, 4541698) == 20 && DeterminePseudoPhase(17, 4569293) == 21
  {
    LargePowers();
    hide Pow2, Shr;
  }

  lemma WrappedAt25()
    ensures DeterminePseudoPhase(25, 1084677002) == 16 && DeterminePseudoPhase(25, 1474269246) == 19
    ensures DeterminePseudoPhase(25, 1597811715) == 20 && DeterminePseudoPhase(25, 1792597959) == 21
  {
    LargePowers();
    hide Pow2, Shr;
  }

  lemma WrappedTruePhase()
    ensures DeterminePseudoPhase(21, 110430426) == 10
  {
    LargePowers();
    ShrIsDiv(110430426, 17);
    hide Pow2, Shr;
    assert 110430426 / 0x2_0000 == 842;
  }

  /** The last coupon of row 0, followed by coupons column by column, is such a stream. */
  lemma SomeStream(lgK: nat) returns (input: seq<nat>)
    requires 17 <= lgK <= MAX_LG_K
    ensures (forall c | c in input :: IsCoupon(c, Pow2(lgK))) && 63 in input && RunHasRoom({}, input, lgK)
    ensures |Elements(input)| == WrappingCount(lgK)
  {
    WrongPhase(lgK);
    assert Pow2(lgK) > 0 && WrappingCount(lgK) > 0;
    hide Pow2, DeterminePseudoPhase, DetermineFlavor, LateFirst, RunHasRoom, IsCoupon, WrappingCount;
    input := LateFirst(Pow2(lgK), WrappingCount(lgK) - 1);
    LateFirstHasRoom(lgK, WrappingCount(lgK) - 1);
    LateFirstSize(Pow2(lgK), WrappingCount(lgK) - 1);
  }

  /** From lg_k = 18 on, so is any stream of that many coupons with one in the last column. */
  lemma EveryStream(lgK: nat, input: seq<nat>)
    requires 18 <= lgK <= MAX_LG_K && |Elements(input)| == WrappingCount(lgK)
    ensures RunHasRoom({}, input, lgK)
  {
    WrongPhase(lgK);
    hide Pow2, DeterminePseudoPhase, DetermineFlavor, OffsetFloor, WrappingCount, Collectable, RunHasRoom;
    assert {} + Elements(input) == Elements(input);
    SmallSetsAreCollectable({}, Elements(input), lgK);
    CollectableRun({}, Elements(input), input, lgK);
  }

  /** Every stream of that many coupons that has room, one of them in the last column, makes a sketch
      that the compressor refuses. */
  method RefuseSketch(compressor: CpcCompressor, lgK: nat, input: seq<nat>)
    returns (sketch: CpcSketch, result: Outcome<CompressedState>)
    requires compressor.Valid() && 17 <= lgK <= MAX_LG_K
    requires (forall c | c in input :: IsCoupon(c, Pow2(lgK))) && 63 in input && RunHasRoom({}, input, lgK)
    requires |Elements(input)| == WrappingCount(lgK)
    ensures sketch.Valid() && sketch.lgK == lgK && sketch.coupons == Elements(input)
    ensures result.Thrown?
  {
    hide Pow2, IsCoupon, CpcSketch.Valid, CpcCompressor.Valid, RunHasRoom, DeterminePseudoPhase, WrappingCount,
         DetermineFlavor, OffsetFloor, CpcCompressor.Overfull, CpcCompressor.Encodes, AlwaysTooShort;
    WrongPhase(lgK);
    assert {} + Elements(input) == Elements(input);
    sketch := new CpcSketch(lgK);
    CollectAll(sketch, input);
    LastColumn(sketch);
    result := compressor.Compress(sketch);
  }

  /** A coupon in the last column of a sliding sketch is in its table. */
  lemma LastColumn(sketch: CpcSketch)
    requires sketch.Valid() && 63 in sketch.coupons
    requires DetermineFlavor(sketch.lgK, sketch.numCoupons) == Sliding && 8 * sketch.numCoupons < 467 * Pow2(sketch.lgK)
    ensures 63 in sketch.table.items
  {
    StateFollowsCount(sketch);
    OffsetBelow(sketch.lgK, sketch.numCoupons, 56);
    SlidingItems(sketch);
    hide CpcSketch.Valid, Pow2, DetermineCorrectOffset, DetermineFlavor;
  }

  lemma SlidingItems(sketch: CpcSketch)
    requires sketch.Valid() && DetermineFlavor(sketch.lgK, sketch.numCoupons) == Sliding
    ensures sketch.table.items == Surprising(sketch.coupons, Pow2(sketch.lgK), sketch.windowOffset) && Pow2(sketch.lgK) > 0
  {
    StateFollowsCount(sketch);
    hide U32Table.Valid, InPlace, DetermineCorrectOffset, DetermineFlavor;
    TableIsSurprising(sketch.coupons, Pow2(sketch.lgK), sketch.windowOffset, sketch.window, sketch.table.items);
  }

  // ----- sketches that overrun the memory -----

  /** Some whole columns, all right of the window, and where the window then is. */
  function BlockColumns(lgK: nat): nat {
    if lgK <= 23 then 23 else if lgK == 24 then 13 else 7
  }

  function BlockOffset(lgK: nat): nat {
    if lgK <= 23 then 20 else if lgK == 24 then 10 else 4
  }

  ghost function Block(lgK: nat): set<nat> {
    set c: nat | c < 64 * Pow2(lgK) && 31 <= Col(c) < 31 + BlockColumns(lgK)
  }

  lemma BlockSize(lgK: nat)
    ensures |Block(lgK)| == Pow2(lgK) * BlockColumns(lgK)
    ensures |Surprising(Block(lgK), Pow2(lgK), BlockOffset(lgK))| == Pow2(lgK) * (BlockOffset(lgK) + BlockColumns(lgK))
  {
    var k, n, w := Pow2(lgK), BlockColumns(lgK), BlockOffset(lgK);
    EarlyCellsSize(k, 31);
    EarlyCellsSize(k, 31 + n);
    EarlyCellsSize(k, w);
    BlockParts(lgK);
    hide Block, EarlyCells, Pow2, Surprising, BlockColumns, BlockOffset;
    assert |EarlyCells(k, 31) + Block(lgK)| == |EarlyCells(k, 31)| + |Block(lgK)|;
    assert |EarlyCells(k, w) + Block(lgK)| == |EarlyCells(k, w)| + |Block(lgK)|;
    TimesSum(k, 31, n);
    TimesSum(k, w, n);
  }

  lemma TimesSum(k: int, a: int, b: int)
    ensures k * (a + b) == k * a + k * b
  {
  }

  lemma BlockParts(lgK: nat)
    ensures var k, n, w := Pow2(lgK), BlockColumns(lgK), BlockOffset(lgK);
            && EarlyCells(k, 31 + n) == EarlyCells(k, 31) + Block(lgK) && EarlyCells(k, 31) !! Block(lgK)
            && Surprising(Block(lgK), k, w) == EarlyCells(k, w) + Block(lgK) && EarlyCells(k, w) !! Block(lgK)
  {
    hide Pow2;
  }

  /** From lg_k = 23 on: a block can be collected in every order, is not refused, and its surprises are
      too many for what their product with 12 allots. */
  lemma BlockCounts(lgK: nat)
    requires 23 <= lgK <= MAX_LG_K
    ensures var c, n := Pow2(lgK) * BlockColumns(lgK), Pow2(lgK) * (BlockOffset(lgK) + BlockColumns(lgK));
            && 8 * c < OffsetFloor(lgK, OverfullOffset(lgK)) && DetermineFlavor(lgK, c) == Sliding
            && DetermineCorrectOffset(lgK, c) == BlockOffset(lgK) && DeterminePseudoPhase(lgK, c) < 16
            && AlwaysTooShort(lgK, n)
  {
    LargePowers();
    hide Pow2, DeterminePseudoPhase, DetermineCorrectOffset;
    OffsetRange(lgK, Pow2(lgK) * BlockColumns(lgK), BlockOffset(lgK));
  }

  lemma SomeBlock(lgK: nat) returns (input: seq<nat>)
    requires 23 <= lgK <= MAX_LG_K
    ensures Elements(input) == Block(lgK) && forall c | c in input :: IsCoupon(c, Pow2(lgK))
  {
    input := Listing(Block(lgK));
    hide Pow2;
    forall c | c in input ensures IsCoupon(c, Pow2(lgK)) {
      assert c in Elements(input);
    }
  }

  /** Every stream of the coupons of a block makes a sketch whose compression is undefined. */
  method OverrunMemory(compressor: CpcCompressor, lgK: nat, input: seq<nat>)
    returns (sketch: CpcSketch, result: Outcome<CompressedState>)
    requires compressor.Valid() && 23 <= lgK <= MAX_LG_K
    requires Elements(input) == Block(lgK) && forall c | c in input :: IsCoupon(c, Pow2(lgK))
    ensures sketch.Valid() && sketch.lgK == lgK && sketch.coupons == Elements(input)
    ensures result.Undefined?
  {
    hide Pow2, IsCoupon, CpcSketch.Valid, CpcCompressor.Valid, RunHasRoom, DeterminePseudoPhase, DetermineFlavor,
         OffsetFloor, CpcCompressor.Overfull, CpcCompressor.Encodes, AlwaysTooShort, Collectable, Block, BlockColumns,
         BlockOffset, DetermineCorrectOffset, OverfullOffset, Surprising;
    BlockSize(lgK);
    BlockCounts(lgK);
    assert {} + Elements(input) == Elements(input);
    SmallSetsAreCollectable({}, Elements(input), lgK);
    CollectableRun({}, Elements(input), input, lgK);
    sketch := new CpcSketch(lgK);
    CollectAll(sketch, input);
    StateFollowsCount(sketch);
    SlidingItems(sketch);
    result := compressor.Compress(sketch);
  }
}
