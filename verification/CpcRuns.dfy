/** Whole runs of a CPC sketch: which coupon sets it can collect in every order, and that it then
    stands for exactly the coupons it was fed. */
module CpcRuns {
  import opened Words
  import opened U32Tables
  import opened CpcSketches

  // ----- coupons from hashes -----

  function BitLength(w: nat): nat {
    if w == 0 then 0 else 1 + BitLength(w / 2)
  }

  /** The coupon of a 128-bit hash: a row from one half, the leading zeros of the other as column.
      The one coupon that equals the table's empty marker is moved to a neighbouring row. */
  function RowColFromTwoHashes(hash0: nat, hash1: nat, lgK: nat): (c: nat)
    requires lgK <= MAX_LG_K
    ensures IsCoupon(c, Pow2(lgK))
  {
    var leadingZeros := 64 - BitLength(hash1);
    var col: nat := if leadingZeros > 63 then 63 else if leadingZeros < 0 then 0 else leadingZeros;
    var row := hash0 % Pow2(lgK);
    var rowCol := Cell(row, col);
    CellCount(lgK);
    SentinelRow();
    if rowCol == EMPTY then Bitwise(Xor, rowCol, Pow2(6)) else rowCol
  }

  lemma {:induction false} BitLengthIs(w: nat)
    ensures w < Pow2(BitLength(w)) && (BitLength(w) > 0 ==> Pow2(BitLength(w) - 1) <= w)
  {
    if w > 0 {
      BitLengthIs(w / 2);
    }
  }

  /** The leading zeros of a 64-bit word of n digits, clipped to 63. */
  function ColumnOf(n: nat): nat {
    if n == 0 then 63 else if n <= 64 then 64 - n else 0
  }

  lemma ColumnOfDigits(hash1: nat, n: nat)
    requires hash1 < U64_SIZE && hash1 < Pow2(n) && (n > 0 ==> Pow2(n - 1) <= hash1)
    ensures n <= 64 && ColumnOf(n) < 64
    ensures hash1 < Pow2(64 - ColumnOf(n)) && (ColumnOf(n) < 63 ==> hash1 >= Pow2(63 - ColumnOf(n)))
    ensures ColumnOf(n) == 63 <==> hash1 < 2
  {
    assert Pow2(1) == 2 && Pow2(0) == 1;
    Pow2Values();
    hide Pow2;
    if n > 64 {
      Pow2Mono(64, n - 1);
    }
    if n > 1 {
      Pow2Mono(1, n - 1);
    }
  }

  /** The row is the low bits of the first hash, and the column where the highest one of the second is.
      The coupon that equals the table's empty marker is one row lower. */
  lemma CouponOfHash(hash0: nat, hash1: nat, lgK: nat)
    requires lgK <= MAX_LG_K && hash1 < U64_SIZE
    ensures var c, row := RowColFromTwoHashes(hash0, hash1, lgK), hash0 % Pow2(lgK);
            && Row(c) == (if lgK == 26 && row == Pow2(26) - 1 && hash1 < 2 then row - 1 else row)
            && hash1 < Pow2(64 - Col(c))
            && (Col(c) < 63 ==> hash1 >= Pow2(63 - Col(c)))
  {
    hide Bitwise, BitLength, Pow2, RowColFromTwoHashes, Cell, ColumnOf;
    var row: nat := hash0 % Pow2(lgK);
    BitLengthIs(hash1);
    var col := ColumnOf(BitLength(hash1));
    ColumnOfDigits(hash1, BitLength(hash1));
    CouponIs(hash0, hash1, lgK, row, col);
    CellParts(row, col);
    LastRow(lgK, row, col);
  }

  lemma CouponIs(hash0: nat, hash1: nat, lgK: nat, row: nat, col: nat)
    requires lgK <= MAX_LG_K && row == hash0 % Pow2(lgK) && col == ColumnOf(BitLength(hash1))
    ensures RowColFromTwoHashes(hash0, hash1, lgK) == if Cell(row, col) == EMPTY then EMPTY - 64 else Cell(row, col)
  {
    SentinelRow();
    hide Bitwise, BitLength, Pow2;
  }

  lemma LastRow(lgK: nat, row: nat, col: nat)
    requires lgK <= MAX_LG_K && row < Pow2(lgK) && col < 64
    ensures Cell(row, col) == EMPTY <==> lgK == 26 && row == Pow2(26) - 1 && col == 63
    ensures Row(EMPTY - 64) == Row(EMPTY) - 1 && Col(EMPTY - 64) == 63
  {
    Pow2Values();
    if lgK < 26 {
      Pow2Mono(lgK, 26);
    }
    hide Pow2;
  }

  lemma SentinelRow()
    ensures Bitwise(Xor, EMPTY, Pow2(6)) == EMPTY - 64
  {
    Pow2Values();
    BitMask(32, 6);
    EraseBit(EMPTY, 6);
  }

  // ----- where the window stands -----

  /** The flavors change at 1, 3/32 K, K/2 and 27/8 K coupons. */
  ghost predicate FlavorFollowsCount(lgK: nat, c: nat) {
    var k, flavor := Pow2(lgK), DetermineFlavor(lgK, c);
    && (flavor == EmptyFlavor <==> c == 0)
    && (flavor == Sparse <==> 0 < c && 32 * c < 3 * k)
    && (flavor == Hybrid <==> 0 < c && 3 * k <= 32 * c && 2 * c < k)
    && (flavor == Pinned <==> k <= 2 * c && 8 * c < 27 * k)
    && (flavor == Sliding <==> 27 * k <= 8 * c)
  }

  /** The state of every valid sketch is fixed by its size: whether it has a window, and where. */
  lemma StateFollowsCount(sketch: CpcSketch)
    requires sketch.Valid()
    ensures sketch.numCoupons == |sketch.coupons|
    ensures sketch.windowOffset == DetermineCorrectOffset(sketch.lgK, sketch.numCoupons)
    ensures sketch.window == [] <==> DetermineFlavor(sketch.lgK, sketch.numCoupons) in {EmptyFlavor, Sparse}
    ensures sketch.windowOffset > 0 <==> DetermineFlavor(sketch.lgK, sketch.numCoupons) == Sliding
    ensures FlavorFollowsCount(sketch.lgK, |sketch.coupons|)
  {
    hide Pow2, SlideLimit, OffsetFloor, DetermineCorrectOffset, U32Table.Valid;
    OffsetRange(sketch.lgK, sketch.numCoupons, sketch.windowOffset);
    LimitsOf(sketch.lgK, sketch.windowOffset);
    LimitsOf(sketch.lgK, 0);
    if sketch.windowOffset > 0 {
      MulMono(Pow2(sketch.lgK), 1, sketch.windowOffset);
    }
    RowCount(sketch.lgK);
  }

  /** Any count below 475/8 K that calls for a window gets its offset right. */
  lemma OffsetPlaces(lgK: nat, c: nat)
    requires 8 * c < 475 * Pow2(lgK) && 32 * c >= 3 * Pow2(lgK)
    ensures var w := DetermineCorrectOffset(lgK, c); w <= 56 && InPlace(lgK, c, w, true)
  {
    EighthsOf(lgK, c);
    hide Pow2, DetermineCorrectOffset;
    var k, tmp := Pow2(lgK), 8 * c - 19 * Pow2(lgK);
    if tmp < 0 {
      LimitsOf(lgK, 0);
    } else {
      var q := OffsetOf(tmp, k);
      LimitsOf(lgK, q);
    }
  }

  lemma OffsetOf(tmp: nat, k: nat) returns (q: nat)
    requires k > 0 && tmp < 456 * k
    ensures q == (tmp / (8 * k)) % 256 && q <= 56
    ensures 8 * (k * q) <= tmp < 8 * (k * q) + 8 * k
  {
    QuotientFits(tmp, 8 * k, 57);
    q := tmp / (8 * k);
    assert tmp == (8 * k) * q + tmp % (8 * k);
    Thresholds(k, q, 0);
    SmallByte57(q);
  }

  lemma SmallByte57(q: nat)
    requires q < 57
    ensures q % 256 == q
  {
  }

  /** Any count below 475/8 K has a window, or none, that is in place. */
  lemma PlaceOf(lgK: nat, c: nat)
    requires MIN_LG_K <= lgK && 8 * c < 475 * Pow2(lgK)
    ensures var w := DetermineCorrectOffset(lgK, c); w <= 56 && InPlace(lgK, c, w, 32 * c >= 3 * Pow2(lgK))
  {
    if 32 * c >= 3 * Pow2(lgK) {
      OffsetPlaces(lgK, c);
    } else {
      EighthsOf(lgK, c);
      LimitsOf(lgK, 0);
      RowCount(lgK);
      hide Pow2, DetermineCorrectOffset;
    }
  }

  // ----- runs -----

  /** The sketch of the coupons before can take in coupon c. */
  ghost predicate StepHasRoom(before: set<nat>, c: nat, lgK: nat) {
    c in before || Absorbable(before + {c}, lgK, DetermineCorrectOffset(lgK, |before|))
  }

  /** Every coupon of the run in turn finds room. */
  ghost predicate RunHasRoom(before: set<nat>, input: seq<nat>, lgK: nat) {
    forall i | 0 <= i < |input| :: StepHasRoom(before + Elements(input[..i]), input[i], lgK)
  }

  /** Feeds the coupons to a sketch one by one. */
  method CollectAll(sketch: CpcSketch, input: seq<nat>)
    requires sketch.Valid()
    requires forall c | c in input :: IsCoupon(c, Pow2(sketch.lgK))
    requires RunHasRoom(sketch.coupons, input, sketch.lgK)
    modifies sketch, sketch.table
    ensures sketch.Valid() && sketch.lgK == old(sketch.lgK)
    ensures sketch.coupons == old(sketch.coupons) + Elements(input)
    ensures sketch.numCoupons == |old(sketch.coupons) + Elements(input)|
    ensures sketch.table == old(sketch.table) || fresh(sketch.table)
  {
    hide Pow2, IsCoupon, StepHasRoom, RunHasRoom, CpcSketch.Valid;
    ghost var before := sketch.coupons;
    for i := 0 to |input|
      invariant sketch.Valid() && sketch.lgK == old(sketch.lgK)
      invariant sketch.table == old(sketch.table) || fresh(sketch.table)
      invariant sketch.coupons == before + Elements(input[..i])
    {
      hide Pow2, IsCoupon, StepHasRoom, RunHasRoom, Elements, CpcSketch.Valid;
      StepOfRun(before, input, i, sketch.lgK);
      OneMoreOfRun(before, input, i);
      CollectOne(sketch, input[i]);
    }
    assert input[..|input|] == input;
    CountIs(sketch);
  }

  lemma StepOfRun(before: set<nat>, input: seq<nat>, i: nat, lgK: nat)
    requires RunHasRoom(before, input, lgK) && i < |input|
    ensures StepHasRoom(before + Elements(input[..i]), input[i], lgK)
  {
    hide StepHasRoom, Elements;
  }

  lemma OneMoreOfRun(before: set<nat>, input: seq<nat>, i: nat)
    requires i < |input|
    ensures before + Elements(input[..i + 1]) == (before + Elements(input[..i])) + {input[i]}
  {
    ElementsNext(input[..i], input[i]);
    assert input[..i + 1] == input[..i] + [input[i]];
    hide Elements;
  }

  lemma CountIs(sketch: CpcSketch)
    requires sketch.Valid()
    ensures sketch.numCoupons == |sketch.coupons|
  {
    hide Describes, InPlace, U32Table.Valid;
  }

  method CollectOne(sketch: CpcSketch, rowCol: nat)
    requires sketch.Valid() && IsCoupon(rowCol, Pow2(sketch.lgK))
    requires StepHasRoom(sketch.coupons, rowCol, sketch.lgK)
    modifies sketch, sketch.table
    ensures sketch.Valid() && sketch.lgK == old(sketch.lgK)
    ensures sketch.coupons == old(sketch.coupons) + {rowCol}
    ensures sketch.table == old(sketch.table) || fresh(sketch.table)
  {
    hide Pow2, IsCoupon, InPlace, Absorbable, U32Table.Valid, DetermineCorrectOffset, CpcSketch.Stored;
    StateFollowsCount(sketch);
    sketch.RowColUpdate(rowCol);
  }

  // ----- coupons that can be collected in any order -----

  /** Whatever part of the coupons has come, the next one finds room. */
  ghost predicate Collectable(before: set<nat>, more: set<nat>, lgK: nat) {
    forall t: set<nat>, c: nat | before <= t <= before + more && c in more :: StepHasRoom(t, c, lgK)
  }

  lemma ElementsNext(list: seq<nat>, c: nat)
    ensures Elements(list + [c]) == Elements(list) + {c}
  {
  }

  lemma Listing(s: set<nat>) returns (list: seq<nat>)
    ensures Elements(list) == s
  {
    if s == {} {
      list := [];
    } else {
      var c :| c in s;
      list := Listing(s - {c});
      ElementsNext(list, c);
      list := list + [c];
    }
  }

  /** That is exactly what it takes for all runs of these coupons to have room. */
  lemma CollectableExactly(before: set<nat>, more: set<nat>, lgK: nat)
    ensures Collectable(before, more, lgK) <==>
              forall input: seq<nat> | Elements(input) <= more :: RunHasRoom(before, input, lgK)
  {
    hide StepHasRoom;
    if Collectable(before, more, lgK) {
      forall input: seq<nat> | Elements(input) <= more ensures RunHasRoom(before, input, lgK) {
        CollectableRun(before, more, input, lgK);
      }
    }
    if forall input: seq<nat> | Elements(input) <= more :: RunHasRoom(before, input, lgK) {
      forall t: set<nat>, c: nat | before <= t <= before + more && c in more ensures StepHasRoom(t, c, lgK) {
        var list := Listing(t - before);
        assert (list + [c])[..|list|] == list && before + (t - before) == t;
        ElementsNext(list, c);
        assert RunHasRoom(before, list + [c], lgK);
        assert StepHasRoom(before + Elements((list + [c])[..|list|]), (list + [c])[|list|], lgK);
      }
    }
  }

  lemma CollectableRun(before: set<nat>, more: set<nat>, input: seq<nat>, lgK: nat)
    requires Collectable(before, more, lgK) && Elements(input) <= more
    ensures RunHasRoom(before, input, lgK)
  {
    hide StepHasRoom;
    forall i | 0 <= i < |input| ensures StepHasRoom(before + Elements(input[..i]), input[i], lgK) {
      assert Elements(input[..i]) <= more && input[i] in more;
    }
  }

  // ----- how large a set can be collected whatever it is -----

  ghost function EarlyCells(k: nat, w: nat): set<nat> {
    set c: nat | c < 64 * k && Col(c) < w
  }

  ghost function RowStart(row: nat, w: nat): set<nat> {
    set col: nat | col < w :: Cell(row, col)
  }

  lemma {:induction false} RowStartSize(row: nat, w: nat)
    requires w <= 64
    ensures |RowStart(row, w)| == w
  {
    if w > 0 {
      RowStartSize(row, w - 1);
      assert RowStart(row, w) == RowStart(row, w - 1) + {Cell(row, w - 1)};
    } else {
      assert RowStart(row, w) == {};
    }
  }

  lemma {:induction false} EarlyCellsSize(k: nat, w: nat)
    requires w <= 64
    ensures |EarlyCells(k, w)| == k * w
  {
    if k > 0 {
      EarlyCellsSize(k - 1, w);
      RowStartSize(k - 1, w);
      SplitEarly(k - 1, w);
      hide EarlyCells, RowStart;
      OneMoreRow(k - 1, w);
    } else {
      assert EarlyCells(0, w) == {};
    }
  }

  lemma OneMoreRow(k: int, w: int)
    ensures (k + 1) * w == k * w + w
  {
  }

  lemma SplitEarly(k: nat, w: nat)
    requires w <= 64
    ensures EarlyCells(k + 1, w) == EarlyCells(k, w) + RowStart(k, w)
    ensures EarlyCells(k, w) !! RowStart(k, w)
  {
    forall c: nat ensures c in EarlyCells(k + 1, w) <==> c in EarlyCells(k, w) + RowStart(k, w) {
      if 64 * k <= c < 64 * (k + 1) {
        assert c == Cell(k, Col(c));
      }
    }
  }

  /** The first window offset at which the surprises of late coupons alone overfill the largest
      table: that has room for 48, 24 or 12 items per row. */
  function OverfullOffset(lgK: nat): nat {
    if lgK <= 24 then 23 else if lgK == 25 then 11 else 5
  }

  lemma RoomIs(lgK: nat, n: nat)
    requires lgK <= MAX_LG_K
    ensures var k, o := Pow2(lgK), OverfullOffset(lgK);
            Roomy(n, 6 + lgK) <==> n <= 2 * (k * o) + 2 * k
  {
    SmallPowers();
    hide Pow2;
    RoomOf(lgK, if lgK <= 24 then 6 else if lgK == 25 then 5 else 4, OverfullOffset(lgK), n);
  }

  lemma RoomOf(lgK: nat, room: nat, o: nat, n: nat)
    requires LargestLgSize(6 + lgK) == room + lgK && 3 * Pow2(room) == 8 * (o + 1)
    ensures Roomy(n, 6 + lgK) <==> n <= 2 * (Pow2(lgK) * o) + 2 * Pow2(lgK)
  {
    Pow2Add(room, lgK);
    hide Pow2, LargestLgSize;
    EightTimes(Pow2(room), Pow2(lgK), o);
  }

  lemma EightTimes(p: nat, k: nat, o: nat)
    requires 3 * p == 8 * (o + 1)
    ensures 3 * (p * k) == 8 * (k * o) + 8 * k
  {
    assert (3 * p) * k == 3 * (p * k) && (8 * (o + 1)) * k == 8 * (k * o) + 8 * k;
  }

  lemma SmallPowers()
    ensures Pow2(4) == 16 && Pow2(5) == 32 && Pow2(6) == 64
  {
    assert Pow2(3) == 8;
  }

  lemma TimesMore(k: nat, o: nat)
    ensures k * (o + 1) == k * o + k && k * (o + 8) == k * o + 8 * k && k * (2 * o + 10) == 2 * (k * o) + 10 * k
  {
  }

  /** Too few coupons for that offset cannot overfill the table, whatever they are and in whatever
      order: fewer than 203/8 per row up to lgK = 24. */
  lemma SmallSetsAreCollectable(before: set<nat>, more: set<nat>, lgK: nat)
    requires MIN_LG_K <= lgK <= MAX_LG_K && 8 * |before + more| < OffsetFloor(lgK, OverfullOffset(lgK))
    ensures Collectable(before, more, lgK)
  {
    hide StepHasRoom, Pow2, OffsetFloor;
    forall t: set<nat>, c: nat | before <= t <= before + more && c in more ensures StepHasRoom(t, c, lgK) {
      SubsetSize(t + {c}, before + more);
      SmallStep(t, c, lgK);
    }
  }

  lemma BoundPerRow(lgK: nat)
    ensures 5 <= OverfullOffset(lgK) <= 23
    ensures OffsetFloor(lgK, OverfullOffset(lgK)) >= 59 * Pow2(lgK)
    ensures lgK <= 24 ==> OffsetFloor(lgK, OverfullOffset(lgK)) == 203 * Pow2(lgK)
    ensures lgK == 25 ==> OffsetFloor(lgK, OverfullOffset(lgK)) == 107 * Pow2(lgK)
  {
    hide Pow2;
  }

  lemma SmallStep(before: set<nat>, c: nat, lgK: nat)
    requires MIN_LG_K <= lgK <= MAX_LG_K && 8 * |before + {c}| < OffsetFloor(lgK, OverfullOffset(lgK))
    ensures StepHasRoom(before, c, lgK)
  {
    SubsetSize(before, before + {c});
    BoundPerRow(lgK);
    hide DetermineCorrectOffset, Absorbable, Pow2, OffsetFloor, OverfullOffset;
    OffsetBelow(lgK, |before|, OverfullOffset(lgK));
    SmallIsAbsorbable(before + {c}, lgK, DetermineCorrectOffset(lgK, |before|));
  }

  lemma SmallIsAbsorbable(t: set<nat>, lgK: nat, w: nat)
    requires lgK <= MAX_LG_K && 8 * |t| < OffsetFloor(lgK, OverfullOffset(lgK)) && w < OverfullOffset(lgK)
    ensures Absorbable(t, lgK, w)
  {
    AtMost475(lgK, t);
    LimitsOf(lgK, OverfullOffset(lgK));
    LimitsOf(lgK, w);
    hide Pow2, TableFits, OffsetFloor, OverfullOffset, SlideLimit;
    FewSurprises(t, lgK, w);
    if 8 * |t| >= SlideLimit(lgK, w) {
      SlideIsSmall(|t|, Pow2(lgK), w, OverfullOffset(lgK));
      FewSurprises(t, lgK, w + 1);
    }
  }

  lemma AtMost475(lgK: nat, t: set<nat>)
    requires 8 * |t| < OffsetFloor(lgK, OverfullOffset(lgK))
    ensures Pow2(lgK) > 0 && 8 * |t| < 475 * Pow2(lgK)
  {
    hide Pow2;
  }

  /** The slide to offset o is due at 19/8 + o coupons per row. */
  lemma SlideIsSmall(c: nat, k: nat, w: nat, o: nat)
    requires k > 0 && 8 * c < 19 * k + 8 * (k * o) && 27 * k + 8 * (k * w) <= 8 * c
    ensures w + 1 < o
  {
    TimesMore(k, w);
    if o <= w + 1 {
      MulMono(k, o, w + 1);
    }
  }

  /** Fewer coupons than offset o asks for: the window is left of it. */
  lemma OffsetBelow(lgK: nat, c: nat, o: nat)
    requires 0 < o <= 56 && 8 * c < OffsetFloor(lgK, o)
    ensures DetermineCorrectOffset(lgK, c) < o
  {
    EighthsOf(lgK, c);
    LimitsOf(lgK, o);
    hide DetermineCorrectOffset, Pow2, OffsetFloor;
    var k, tmp := Pow2(lgK), 8 * c - 19 * Pow2(lgK);
    if tmp >= 0 {
      Thresholds(k, o, 0);
      QuotientFits(tmp, 8 * k, o);
      SmallByte(tmp / (8 * k), o);
    }
  }

  lemma SmallByte(q: int, o: nat)
    requires 0 <= q < o <= 56
    ensures 0 <= q % 256 < o
  {
  }

  lemma EighthsOf(lgK: nat, c: nat)
    ensures var tmp := 8 * c - 19 * Pow2(lgK);
            DetermineCorrectOffset(lgK, c) == if tmp < 0 then 0 else (tmp / (8 * Pow2(lgK))) % 256
  {
    assert Pow2(lgK + 2) == 4 * Pow2(lgK);
    assert Pow2(lgK + 3) == 8 * Pow2(lgK);
  }

  lemma FewSurprises(t: set<nat>, lgK: nat, w: nat)
    requires lgK <= MAX_LG_K && w < OverfullOffset(lgK)
    requires 8 * |t| < 19 * Pow2(lgK) + 8 * (Pow2(lgK) * OverfullOffset(lgK))
    ensures TableFits(t, lgK, w)
  {
    var k, o := Pow2(lgK), OverfullOffset(lgK);
    SubsetSize(Surprising(t, k, w), EarlyCells(k, w) + t);
    SubsetSize(EarlyCells(k, w), EarlyCells(k, o - 1));
    EarlyCellsSize(k, o - 1);
    hide Surprising, EarlyCells, Pow2, OverfullOffset, Roomy;
    TimesMore(k, o - 1);
    RoomIs(lgK, |Surprising(t, k, w)|);
    assert |EarlyCells(k, w) + t| <= |EarlyCells(k, w)| + |t|;
  }

  // ----- that bound is tight -----

  /** 19/8 + o coupons per row, all far from the columns left of offset o. */
  ghost function LateCells(k: nat, o: nat): set<nat> {
    set c: nat | c < 64 * k && (o + 8 <= Col(c) < 2 * o + 10 || (Col(c) == 2 * o + 10 && 8 * Row(c) < 3 * k))
  }

  ghost function ColumnStart(col: nat, rows: nat): set<nat> {
    set row: nat | row < rows :: Cell(row, col)
  }

  lemma {:induction false} ColumnStartSize(col: nat, rows: nat)
    requires col < 64
    ensures |ColumnStart(col, rows)| == rows
  {
    if rows == 0 {
      assert ColumnStart(col, 0) == {};
    } else {
      ColumnStartSize(col, rows - 1);
      assert ColumnStart(col, rows) == ColumnStart(col, rows - 1) + {Cell(rows - 1, col)};
    }
  }

  lemma LateCellsAre(k: nat, m: nat, o: nat)
    requires 8 * m == 3 * k && o <= 23
    ensures EarlyCells(k, o + 8) + LateCells(k, o) == EarlyCells(k, 2 * o + 10) + ColumnStart(2 * o + 10, m)
    ensures EarlyCells(k, o + 8) !! LateCells(k, o) && EarlyCells(k, 2 * o + 10) !! ColumnStart(2 * o + 10, m)
    ensures Surprising(LateCells(k, o), k, o) == EarlyCells(k, o) + LateCells(k, o)
    ensures EarlyCells(k, o) !! LateCells(k, o)
  {
    var last := 2 * o + 10;
    forall c: nat ensures c in ColumnStart(last, m) <==> c < 64 * k && Col(c) == last && 8 * Row(c) < 3 * k {
      if c in ColumnStart(last, m) {
        var row: nat :| row < m && c == Cell(row, last);
        CellParts(row, last);
      } else if Col(c) == last {
        assert c == Cell(Row(c), last);
      }
    }
  }

  lemma LateCellsSize(k: nat, m: nat, o: nat)
    requires 8 * m == 3 * k && o <= 23
    ensures 8 * |LateCells(k, o)| == 19 * k + 8 * (k * o)
    ensures 8 * |Surprising(LateCells(k, o), k, o)| == 19 * k + 16 * (k * o)
  {
    LateCellsAre(k, m, o);
    EarlyCellsSize(k, o + 8);
    EarlyCellsSize(k, 2 * o + 10);
    EarlyCellsSize(k, o);
    ColumnStartSize(2 * o + 10, m);
    TimesMore(k, o);
    hide EarlyCells, LateCells, ColumnStart, Surprising;
    assert |EarlyCells(k, o + 8) + LateCells(k, o)| == |EarlyCells(k, o + 8)| + |LateCells(k, o)|;
    assert |EarlyCells(k, 2 * o + 10) + ColumnStart(2 * o + 10, m)| == |EarlyCells(k, 2 * o + 10)| + |ColumnStart(2 * o + 10, m)|;
    assert |EarlyCells(k, o) + LateCells(k, o)| == |EarlyCells(k, o)| + |LateCells(k, o)|;
  }

  /** One coupon more can be too many: without any one of these the others can be collected in every
      order, and the last one makes the window slide to the offset where 3/8 more surprises per row
      than fit outgrow the table. */
  lemma BoundIsTight(lgK: nat)
    requires MIN_LG_K <= lgK <= MAX_LG_K
    ensures var o := OverfullOffset(lgK); var s := LateCells(Pow2(lgK), o);
            && 8 * |s| == OffsetFloor(lgK, o)
            && !TableFits(s, lgK, o)
            && forall c | c in s :: IsCoupon(c, Pow2(lgK)) && Collectable({}, s - {c}, lgK) && !StepHasRoom(s - {c}, c, lgK)
  {
    var k, o := Pow2(lgK), OverfullOffset(lgK);
    var s := LateCells(k, o);
    LateIsTooMuch(lgK);
    BoundPerRow(lgK);
    hide LateCells, Pow2, Surprising, OffsetFloor, OverfullOffset, TableFits, Collectable, StepHasRoom, IsCoupon;
    forall c | c in s ensures IsCoupon(c, k) && Collectable({}, s - {c}, lgK) && !StepHasRoom(s - {c}, c, lgK) {
      LateCoupon(k, o, c);
      LastLateStep(lgK, s, c);
      assert {} + (s - {c}) == s - {c} && |s - {c}| == |s| - 1;
      SmallSetsAreCollectable({}, s - {c}, lgK);
    }
  }

  lemma LateIsTooMuch(lgK: nat)
    requires MIN_LG_K <= lgK <= MAX_LG_K
    ensures var o := OverfullOffset(lgK); var s := LateCells(Pow2(lgK), o);
            8 * |s| == OffsetFloor(lgK, o) && !TableFits(s, lgK, o)
  {
    var k, o := Pow2(lgK), OverfullOffset(lgK);
    Eighths(lgK);
    BoundPerRow(lgK);
    LimitsOf(lgK, o);
    hide LateCells, Pow2, Surprising, OffsetFloor, Roomy, OverfullOffset;
    var n: nat := |Surprising(LateCells(k, o), k, o)|;
    RoomIs(lgK, n);
    LateCellsSize(k, 3 * k / 8, o);
    MoreThanRoom(k, k * o, n);
  }

  lemma MoreThanRoom(k: nat, ko: nat, n: nat)
    requires k > 0 && 8 * n == 19 * k + 16 * ko
    ensures n > 2 * ko + 2 * k
  {
  }

  lemma LastLateStep(lgK: nat, s: set<nat>, c: nat)
    requires MIN_LG_K <= lgK <= MAX_LG_K && c in s
    requires var o := OverfullOffset(lgK); 8 * |s| == OffsetFloor(lgK, o) && !TableFits(s, lgK, o)
    ensures !StepHasRoom(s - {c}, c, lgK)
  {
    var k, o := Pow2(lgK), OverfullOffset(lgK);
    assert o >= 5;
    Eighths(lgK);
    LimitsOf(lgK, o);
    LimitsOf(lgK, o - 1);
    hide TableFits, Pow2, SlideLimit, OffsetFloor, DetermineCorrectOffset, OverfullOffset;
    TimesMore(k, o - 1);
    assert |s - {c}| == |s| - 1 && (s - {c}) + {c} == s;
    OffsetRange(lgK, |s - {c}|, o - 1);
  }

  lemma PrefixHasRoom(before: set<nat>, input: seq<nat>, n: nat, lgK: nat)
    requires RunHasRoom(before, input, lgK) && n <= |input|
    ensures RunHasRoom(before, input[..n], lgK)
  {
    hide StepHasRoom, Elements;
    forall i | 0 <= i < n ensures StepHasRoom(before + Elements(input[..n][..i]), input[..n][i], lgK) {
      assert input[..n][..i] == input[..i];
      StepOfRun(before, input, i, lgK);
    }
  }

  /** The coupon that comes last in a run finds room with all the others before it. */
  lemma {:induction false} LastOfRun(input: seq<nat>, lgK: nat) returns (c: nat)
    requires RunHasRoom({}, input, lgK) && input != []
    ensures c in Elements(input) && StepHasRoom(Elements(input) - {c}, c, lgK)
    decreases |input|
  {
    hide StepHasRoom, RunHasRoom;
    var n := |input| - 1;
    StepOfRun({}, input, n, lgK);
    OneMoreOfRun({}, input, n);
    assert {} + Elements(input[..n]) == Elements(input[..n]) && {} + Elements(input[..n + 1]) == Elements(input[..n + 1]);
    assert input[..n + 1] == input;
    if input[n] in Elements(input[..n]) {
      PrefixHasRoom({}, input, n, lgK);
      c := LastOfRun(input[..n], lgK);
      assert Elements(input) == Elements(input[..n]);
    } else {
      c := input[n];
      assert Elements(input) - {c} == Elements(input[..n]);
    }
  }

  /** In no order do the late coupons have room. */
  lemma LateRunsFail(input: seq<nat>, lgK: nat)
    requires MIN_LG_K <= lgK <= MAX_LG_K && Elements(input) == LateCells(Pow2(lgK), OverfullOffset(lgK))
    ensures !RunHasRoom({}, input, lgK)
  {
    LateIsTooMuch(lgK);
    BoundPerRow(lgK);
    RowCount(lgK);
    hide LateCells, Pow2, OffsetFloor, OverfullOffset, StepHasRoom, RunHasRoom, TableFits;
    assert input != [];
    if RunHasRoom({}, input, lgK) {
      var c := LastOfRun(input, lgK);
      LastLateStep(lgK, Elements(input), c);
    }
  }

  lemma LateCoupon(k: nat, o: nat, c: nat)
    requires c in LateCells(k, o) && o <= 23
    ensures IsCoupon(c, k)
  {
  }

  lemma Eighths(lgK: nat)
    requires MIN_LG_K <= lgK
    ensures Pow2(lgK) >= 16 && Pow2(lgK) % 8 == 0 && 8 * (3 * Pow2(lgK) / 8) == 3 * Pow2(lgK)
  {
    RowCount(lgK);
    Pow2Add(3, lgK - 3);
    assert Pow2(3) == 8;
    hide Pow2;
  }

  // ----- runs that always have room -----

  /** All cells left of column j and, besides some others, none right of it. */
  ghost predicate FilledTo(s: set<nat>, k: nat, j: nat, others: set<nat>) {
    EarlyCells(k, j) <= s <= EarlyCells(k, j + 1) + others
  }

  lemma FilledSize(s: set<nat>, k: nat, j: nat, others: set<nat>)
    requires FilledTo(s, k, j, others) && j < 64
    ensures k * j <= |s| <= k * j + k + |others|
  {
    EarlyCellsSize(k, j);
    EarlyCellsSize(k, j + 1);
    SubsetSize(EarlyCells(k, j), s);
    SubsetSize(s, EarlyCells(k, j + 1) + others);
    hide EarlyCells;
    assert |EarlyCells(k, j + 1) + others| <= |EarlyCells(k, j + 1)| + |others|;
    TimesMore(k, j);
  }

  lemma OthersFit(s: set<nat>, lgK: nat, j: nat, others: set<nat>, w: nat)
    requires lgK <= MAX_LG_K && FilledTo(s, Pow2(lgK), j, others) && |others| <= Pow2(lgK) && w <= j < w + 8
    ensures TableFits(s, lgK, w)
  {
    var k := Pow2(lgK);
    hide Pow2, Roomy;
    assert Surprising(s, k, w) <= others;
    SubsetSize(Surprising(s, k, w), others);
    RoomPerRow(lgK, |Surprising(s, k, w)|);
  }

  /** Where the window stands, or slides to, when columns have been filled up to j. */
  lemma FilledOffset(k: nat, j: nat, n: nat, w: nat)
    requires k > 0 && k * j <= n < k * j + 2 * k
    requires 8 * n < 27 * k + 8 * (k * w) && (w > 0 ==> 19 * k + 8 * (k * w) <= 8 * n)
    ensures w <= j <= w + 3
    ensures 8 * (n + 1) >= 27 * k + 8 * (k * w) ==> w + 1 <= j
  {
    assert k * (w + 4) == k * w + 4 * k;
    if j > w + 3 {
      MulMono(k, w + 4, j);
    } else if w >= j {
      MulMono(k, j, w);
    }
  }

  /** Coupons that fill the columns from the left find room up to the last count below 475/8 K, even
      if as many others as there are rows have come before. */
  lemma LeftToRight(s: set<nat>, lgK: nat, j: nat, others: set<nat>, c: nat)
    requires MIN_LG_K <= lgK <= MAX_LG_K && j < 64 && FilledTo(s, Pow2(lgK), j, others) && |others| <= Pow2(lgK)
    requires IsCoupon(c, Pow2(lgK)) && Col(c) == j && 8 * (|s| + 1) < 475 * Pow2(lgK)
    ensures StepHasRoom(s, c, lgK) && FilledTo(s + {c}, Pow2(lgK), j, others)
  {
    var t := s + {c};
    assert Pow2(lgK) > 0 && FilledTo(t, Pow2(lgK), j, others);
    if c !in s {
      hide Pow2, DetermineCorrectOffset, FilledTo, Absorbable, InPlace, IsCoupon;
      PlaceOf(lgK, |s|);
      FilledIsAbsorbable(s, lgK, j, others, t, DetermineCorrectOffset(lgK, |s|), 32 * |s| >= 3 * Pow2(lgK));
    }
  }

  lemma FilledIsAbsorbable(s: set<nat>, lgK: nat, j: nat, others: set<nat>, t: set<nat>, w: nat, windowed: bool)
    requires lgK <= MAX_LG_K && Pow2(lgK) > 0 && j < 64 && |others| <= Pow2(lgK) && InPlace(lgK, |s|, w, windowed)
    requires FilledTo(s, Pow2(lgK), j, others) && FilledTo(t, Pow2(lgK), j, others)
    requires |t| == |s| + 1 && 8 * |t| < 475 * Pow2(lgK)
    ensures Absorbable(t, lgK, w)
  {
    hide Pow2, FilledTo, TableFits, SlideLimit, OffsetFloor;
    FilledSize(s, Pow2(lgK), j, others);
    FilledSize(t, Pow2(lgK), j, others);
    LimitsOf(lgK, w);
    FilledOffset(Pow2(lgK), j, |s|, w);
    OthersFit(t, lgK, j, others, w);
    if 8 * |t| >= SlideLimit(lgK, w) {
      OthersFit(t, lgK, j, others, w + 1);
    }
  }

  /** The first n cells, column by column. */
  function ColumnByColumn(k: nat, n: nat): seq<nat>
    requires k > 0
  {
    seq(n, (i: nat) => Cell(i % k, i / k))
  }

  lemma CellAt(k: nat, i: nat)
    requires 0 < k && i < 63 * k
    ensures i % k < k && 0 <= i / k < 63
    ensures var c := Cell(i % k, i / k); Col(c) == i / k && Row(c) == i % k && c < 64 * k && c % 64 != 63
  {
    QuotientFits(i, k, 63);
    CellParts(i % k, i / k);
  }

  lemma IndexOf(k: nat, j: nat, c: nat)
    requires 0 < k && c < 64 * k && Col(c) < j
    ensures var i := k * Col(c) + Row(c); i < k * j && i % k == Row(c) && i / k == Col(c) && Cell(Row(c), Col(c)) == c
  {
    var i := k * Col(c) + Row(c);
    DivUnique(i, k, Col(c), Row(c));
    MulMono(k, Col(c) + 1, j);
    assert k * (Col(c) + 1) == k * Col(c) + k;
  }

  /** The cell in the last column of row 0 comes first, then n cells column by column. */
  function LateFirst(k: nat, n: nat): seq<nat>
    requires k > 0
  {
    [63] + ColumnByColumn(k, n)
  }

  lemma LateFirstAt(k: nat, n: nat, p: nat)
    requires 0 < k && n <= 63 * k && p <= n
    ensures |LateFirst(k, n)| == n + 1
    ensures var c := LateFirst(k, n)[p];
            c < 64 * k && c != EMPTY && if p == 0 then c == 63 else Col(c) == (p - 1) / k < 63 && Row(c) == (p - 1) % k
  {
    if p > 0 {
      CellAt(k, p - 1);
    }
  }

  lemma LateFirstDiffer(k: nat, n: nat, i: nat, j: nat)
    requires 0 < k && n <= 63 * k && i < j <= n
    ensures |LateFirst(k, n)| == n + 1 && LateFirst(k, n)[i] != LateFirst(k, n)[j]
  {
    hide LateFirst;
    LateFirstAt(k, n, i);
    LateFirstAt(k, n, j);
    if i > 0 {
      DivParts(i - 1, k);
      DivParts(j - 1, k);
    }
  }

  lemma DivParts(x: nat, k: nat)
    requires k > 0
    ensures x == k * (x / k) + x % k
  {
  }

  lemma QuotientMono(a: nat, b: nat, k: nat)
    requires 0 < k && a <= b
    ensures a / k <= b / k
  {
    var p, q := a / k, b / k;
    assert a == k * p + a % k && b == k * q + b % k;
    TimesMore(k, q);
    if p > q {
      MulMono(k, q + 1, p);
    }
  }

  lemma EarlyIsThere(k: nat, n: nat, i: nat, c: nat)
    requires 0 < k && i < n <= 63 * k && c < 64 * k && Col(c) < i / k
    ensures |LateFirst(k, n)| == n + 1 && c in LateFirst(k, n)[..i + 1]
  {
    LateFirstAt(k, n, 0);
    DivParts(i, k);
    hide LateFirst, Col, Row, Cell;
    var j: nat := i / k;
    IndexOf(k, j, c);
    var p := k * Col(c) + Row(c) + 1;
    LateFirstAt(k, n, p);
    SameCell(LateFirst(k, n)[p], c);
    assert LateFirst(k, n)[..i + 1][p] == c;
  }

  lemma SameCell(c: nat, d: nat)
    requires Row(c) == Row(d) && Col(c) == Col(d)
    ensures c == d
  {
  }

  lemma FilledBy(k: nat, n: nat, i: nat)
    requires 0 < k && i < n <= 63 * k
    ensures |LateFirst(k, n)| == n + 1 && i / k >= 0
    ensures FilledTo(Elements(LateFirst(k, n)[..i + 1]), k, i / k, {63})
  {
    LateFirstAt(k, n, i + 1);
    hide LateFirst, Col;
    var part, j: nat := LateFirst(k, n)[..i + 1], i / k;
    forall c | c in EarlyCells(k, j) ensures c in part {
      EarlyIsThere(k, n, i, c);
    }
    forall c | c in part ensures c in EarlyCells(k, j + 1) + {63} {
      var p :| 0 <= p < |part| && part[p] == c;
      LateFirstAt(k, n, p);
      if p > 0 {
        QuotientMono(p - 1, i, k);
      }
    }
  }

  lemma LateFirstSize(k: nat, n: nat)
    requires 0 < k && n <= 63 * k
    ensures |Elements(LateFirst(k, n))| == n + 1 && 63 in LateFirst(k, n)
  {
    var s := LateFirst(k, n);
    LateFirstAt(k, n, 0);
    hide LateFirst, Elements;
    forall i, j | 0 <= i < j < |s| ensures s[i] != s[j] {
      LateFirstDiffer(k, n, i, j);
    }
    DistinctCount(s);
    assert s[0] == 63;
  }

  /** That stream has room up to the last count below 475/8 K. */
  lemma LateFirstHasRoom(lgK: nat, n: nat)
    requires MIN_LG_K <= lgK <= MAX_LG_K && 8 * (n + 1) < 475 * Pow2(lgK)
    ensures forall c | c in LateFirst(Pow2(lgK), n) :: IsCoupon(c, Pow2(lgK))
    ensures RunHasRoom({}, LateFirst(Pow2(lgK), n), lgK)
  {
    var k, s := Pow2(lgK), LateFirst(Pow2(lgK), n);
    RowCount(lgK);
    hide Pow2, LateFirst, StepHasRoom;
    forall c | c in s ensures IsCoupon(c, k) {
      LateFirstAt(k, n, 0);
      var p :| 0 <= p < |s| && s[p] == c;
      LateFirstAt(k, n, p);
    }
    forall p | 0 <= p < |s| ensures StepHasRoom({} + Elements(s[..p]), s[p], lgK) {
      LateFirstAt(k, n, 0);
      LateFirstStep(lgK, n, p);
    }
  }

  lemma LateFirstStep(lgK: nat, n: nat, p: nat)
    requires MIN_LG_K <= lgK <= MAX_LG_K && 8 * (n + 1) < 475 * Pow2(lgK) && p <= n
    ensures p < |LateFirst(Pow2(lgK), n)|
    ensures StepHasRoom({} + Elements(LateFirst(Pow2(lgK), n)[..p]), LateFirst(Pow2(lgK), n)[p], lgK)
  {
    var k, s := Pow2(lgK), LateFirst(Pow2(lgK), n);
    RowCount(lgK);
    LateFirstAt(k, n, p);
    hide Pow2, LateFirst, StepHasRoom, FilledTo, EarlyCells, Elements;
    assert {} + Elements(s[..p]) == Elements(s[..p]);
    if p == 0 {
      assert s[..0] == [];
      FirstStep(lgK);
    } else {
      ElementsBound(s[..p]);
      FilledBy(k, n, p - 1);
      LeftToRight(Elements(s[..p]), lgK, Col(s[p]), {63}, s[p]);
    }
  }

  lemma FirstStep(lgK: nat)
    requires MIN_LG_K <= lgK <= MAX_LG_K
    ensures StepHasRoom(Elements([]), 63, lgK)
  {
    RowCount(lgK);
    BoundPerRow(lgK);
    hide Pow2, StepHasRoom, OffsetFloor, OverfullOffset;
    assert Elements([]) == {} && |{} + {63}| == 1;
    SmallStep({}, 63, lgK);
  }

  // ----- when exactly a step has room -----

  lemma RoomyTable(table: U32Table)
    requires table.Valid()
    ensures Roomy(|table.items|, table.numValidBits) && table.numValidBits > 0
    ensures forall x | x in table.items :: x != EMPTY
  {
    Pow2Mono(table.lgSize, LargestLgSize(table.numValidBits));
    hide Pow2;
  }

  /** The surprises after a new coupon: one more right of the window, none elsewhere. */
  lemma SurprisesWith(s: set<nat>, lgK: nat, w: nat, window: seq<nat>, items: set<nat>, fic: nat, c: nat)
    requires Describes(s, lgK, w, window, items, fic) && window != [] && IsCoupon(c, Pow2(lgK)) && c !in s
    ensures w + 8 <= Col(c) ==> c !in items && |Surprising(s + {c}, Pow2(lgK), w)| == |items| + 1
    ensures Col(c) < w + 8 ==> |Surprising(s + {c}, Pow2(lgK), w)| <= |items|
  {
    var k := Pow2(lgK);
    hide Pow2;
    TableIsSurprising(s, k, w, window, items);
    if w + 8 <= Col(c) {
      AddLate(s, k, w, window, items, c);
      assert Surprising(s + {c}, k, w) == items + {c};
    } else {
      assert Surprising(s + {c}, k, w) <= items;
      SubsetSize(Surprising(s + {c}, k, w), items);
    }
  }

  /** No sketch has come as far as 475/8 K unless its window would have to leave the matrix. */
  lemma LastSlide(lgK: nat, c: nat, w: nat)
    requires MIN_LG_K <= lgK && w <= 56 && 8 * c < SlideLimit(lgK, w) + 8
    ensures 8 * c < 475 * Pow2(lgK) <==> (8 * c >= SlideLimit(lgK, w) ==> w < 56)
  {
    RowCount(lgK);
    LimitsOf(lgK, w);
    var k := Pow2(lgK);
    if w < 56 {
      MulMono(k, w, 55);
    }
    hide Pow2, SlideLimit;
  }

  lemma SparseAbsorbable(s: set<nat>, lgK: nat, c: nat)
    requires MIN_LG_K <= lgK <= MAX_LG_K && 32 * |s| < 3 * Pow2(lgK)
    ensures 8 * |s + {c}| < SlideLimit(lgK, 0) && Absorbable(s + {c}, lgK, 0)
  {
    SparseCounts(lgK, |s|);
    CellCount(lgK);
    SlideFromZero(lgK);
    SubsetSize(Surprising(s + {c}, Pow2(lgK), 0), s + {c});
    hide Pow2, SlideLimit, Surprising;
    assert |s + {c}| <= |s| + 1;
  }

  /** A sparse sketch always has room. */
  lemma SparseStep(sketch: CpcSketch, c: nat)
    requires sketch.Valid() && sketch.window == [] && IsCoupon(c, Pow2(sketch.lgK)) && c !in sketch.coupons
    ensures StepHasRoom(sketch.coupons, c, sketch.lgK) && sketch.table.SizeWith(c) <= LargestLgSize(sketch.table.numValidBits)
    ensures 8 * |sketch.coupons + {c}| < SlideLimit(sketch.lgK, sketch.windowOffset)
  {
    hide Pow2, SlideLimit, Describes, Absorbable, U32Table.Valid, U32Table.SizeWith, DetermineCorrectOffset, IsCoupon;
    StateFollowsCount(sketch);
    SparseRoom(sketch.coupons, sketch.lgK, sketch.windowOffset, [], sketch.table.items, sketch.firstInterestingColumn, c);
    hide InPlace;
    sketch.table.OutgrowsUniverse(c);
    SparseAbsorbable(sketch.coupons, sketch.lgK, c);
  }

  lemma WindowPlace(sketch: CpcSketch)
    requires sketch.Valid() && sketch.window != []
    ensures sketch.windowOffset <= 56 && 8 * |sketch.coupons| < SlideLimit(sketch.lgK, sketch.windowOffset)
  {
    hide Pow2, SlideLimit, OffsetFloor, Represents, U32Table.Valid;
  }

  lemma AbsorbableExactly(t: set<nat>, lgK: nat, w: nat, n: nat, late: bool)
    requires MIN_LG_K <= lgK && w <= 56 && 8 * |t| < SlideLimit(lgK, w) + 8
    requires Roomy(n, 6 + lgK)
    requires if late then |Surprising(t, Pow2(lgK), w)| == n + 1 else |Surprising(t, Pow2(lgK), w)| <= n
    ensures Absorbable(t, lgK, w) <==>
              && (late ==> Roomy(n + 1, 6 + lgK))
              && (8 * |t| >= SlideLimit(lgK, w) ==> w < 56 && TableFits(t, lgK, w + 1))
  {
    hide Pow2, SlideLimit, Surprising;
    LastSlide(lgK, |t|, w);
  }

  /** A new coupon finds room exactly if neither inserting it outgrows the table nor the slide that
      it may cause runs out of columns or outgrows the table. */
  lemma StepExactly(sketch: CpcSketch, c: nat)
    requires sketch.Valid() && IsCoupon(c, Pow2(sketch.lgK)) && c !in sketch.coupons
    ensures var s, w := sketch.coupons + {c}, sketch.windowOffset;
            StepHasRoom(sketch.coupons, c, sketch.lgK) <==>
              && (sketch.window == [] || w + 8 <= Col(c) ==> sketch.table.SizeWith(c) <= LargestLgSize(sketch.table.numValidBits))
              && (8 * |s| >= SlideLimit(sketch.lgK, w) ==> w < 56 && TableFits(s, sketch.lgK, w + 1))
  {
    hide Pow2, SlideLimit, U32Table.Valid, U32Table.SizeWith, CpcSketch.Valid, StepHasRoom, TableFits, IsCoupon,
         LargestLgSize;
    if sketch.window == [] {
      SparseStep(sketch, c);
    } else {
      WindowedStep(sketch, c);
    }
  }

  lemma WindowedStep(sketch: CpcSketch, c: nat)
    requires sketch.Valid() && sketch.window != [] && IsCoupon(c, Pow2(sketch.lgK)) && c !in sketch.coupons
    ensures var s, w := sketch.coupons + {c}, sketch.windowOffset;
            StepHasRoom(sketch.coupons, c, sketch.lgK) <==>
              && (w + 8 <= Col(c) ==> sketch.table.SizeWith(c) <= LargestLgSize(sketch.table.numValidBits))
              && (8 * |s| >= SlideLimit(sketch.lgK, w) ==> w < 56 && TableFits(s, sketch.lgK, w + 1))
  {
    hide Pow2, SlideLimit, Surprising, U32Table.Valid, U32Table.SizeWith, DetermineCorrectOffset, Absorbable, TableFits,
         Describes, InPlace, Roomy, IsCoupon, Col;
    var s, w, n := sketch.coupons + {c}, sketch.windowOffset, |sketch.table.items|;
    StateFollowsCount(sketch);
    WindowPlace(sketch);
    RoomyTable(sketch.table);
    sketch.table.OutgrowsUniverse(c);
    assert |s| == |sketch.coupons| + 1;
    SurprisesWith(sketch.coupons, sketch.lgK, w, sketch.window, sketch.table.items, sketch.firstInterestingColumn, c);
    AbsorbableExactly(s, sketch.lgK, w, n, w + 8 <= Col(c));
  }
}
