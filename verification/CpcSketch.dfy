/** The CPC sketch: a K x 64 bit matrix of collected coupons, stored first as a sparse table, then
    as a window of 8 columns plus a table of the cells that differ from what their column
    suggests: 0s left of the window, 1s right of it (cpc/include/cpc_sketch_impl.hpp). */
module CpcSketches {
  import opened Words
  import opened U32Tables

  const MIN_LG_K := 4
  const MAX_LG_K := 26

  // ----- cells -----

  /** A coupon row_col packs (row << 6) | col. */
  function Cell(row: nat, col: nat): nat {
    64 * row + col
  }

  function Row(c: nat): nat {
    c / 64
  }

  function Col(c: nat): nat {
    c % 64
  }

  lemma CellParts(row: nat, col: nat)
    requires col < 64
    ensures Row(Cell(row, col)) == row && Col(Cell(row, col)) == col
  {
  }

  /** The coupons of a sketch with k rows; the table's empty marker is none of them. */
  ghost predicate IsCoupon(c: nat, k: nat) {
    c < 64 * k && c != EMPTY
  }

  // ----- flavor and window position as functions of the coupon count -----

  datatype Flavor = EmptyFlavor | Sparse | Hybrid | Pinned | Sliding

  function DetermineFlavor(lgK: nat, c: nat): Flavor {
    var k := Pow2(lgK);
    if c == 0 then EmptyFlavor
    else if 32 * c < 3 * k then Sparse
    else if 2 * c < k then Hybrid
    else if 8 * c < 27 * k then Pinned
    else Sliding
  }

  function DetermineCorrectOffset(lgK: nat, c: nat): nat {
    var tmp := 8 * c - 19 * Pow2(lgK);
    if tmp < 0 then 0 else (tmp / Pow2(lgK + 3)) % 256
  }

  /** The coupon count at which a window at offset w must slide: C >= (27/8 + w) K. */
  function SlideLimit(lgK: nat, w: nat): nat {
    (27 + 8 * w) * Pow2(lgK)
  }

  /** The least count, times 8, for which offset w > 0 is right: C >= (19/8 + w) K. */
  function OffsetFloor(lgK: nat, w: nat): nat {
    (19 + 8 * w) * Pow2(lgK)
  }

  lemma Thresholds(k: nat, w: nat, a: nat)
    ensures (a + 8 * w) * k == a * k + 8 * (k * w)
    ensures (8 * k) * w == 8 * (k * w)
  {
  }

  lemma LimitsOf(lgK: nat, w: nat)
    ensures SlideLimit(lgK, w) == 27 * Pow2(lgK) + 8 * (Pow2(lgK) * w)
    ensures OffsetFloor(lgK, w) == 19 * Pow2(lgK) + 8 * (Pow2(lgK) * w)
  {
    Thresholds(Pow2(lgK), w, 27);
    Thresholds(Pow2(lgK), w, 19);
  }

  /** The offset w is the one for which 19/8 + w <= C/K < 27/8 + w, or 0 below that range. */
  lemma OffsetRange(lgK: nat, c: nat, w: nat)
    requires w < 256
    requires 8 * c < SlideLimit(lgK, w)
    requires w > 0 ==> 8 * c >= OffsetFloor(lgK, w)
    ensures DetermineCorrectOffset(lgK, c) == w
  {
    var k, tmp := Pow2(lgK), 8 * c - 19 * Pow2(lgK);
    assert Pow2(lgK + 2) == 4 * k;
    assert Pow2(lgK + 3) == 8 * k;
    LimitsOf(lgK, w);
    Thresholds(k, w, 0);
    hide Pow2, SlideLimit, OffsetFloor;
    if tmp >= 0 {
      OffsetQuotient(tmp, k, w, k * w);
    }
  }

  lemma OffsetQuotient(tmp: nat, k: nat, w: nat, kw: nat)
    requires k > 0 && kw == k * w && (8 * k) * w == 8 * kw && 8 * kw <= tmp < 8 * kw + 8 * k
    ensures tmp / (8 * k) == w
  {
    DivUnique(tmp, 8 * k, w, tmp - 8 * kw);
  }

  // ----- what window, offset and table say about the matrix -----

  /** The value a cell has unless the table says otherwise. */
  ghost predicate DefaultBit(c: nat, w: nat, window: seq<nat>) {
    || Col(c) < w
    || (Row(c) < |window| && w <= Col(c) && Bit(window[Row(c)], Col(c) - w))
  }

  /** The sketch's window at offset w and its table stand for the coupon set s. */
  ghost predicate Represents(s: set<nat>, k: nat, w: nat, window: seq<nat>, items: set<nat>) {
    && (forall c | c in items :: c < 64 * k)
    && (forall c: nat :: c in s <==> (c < 64 * k && DefaultBit(c, w, window) != (c in items)))
  }

  ghost predicate IsWindow(window: seq<nat>, k: nat) {
    |window| == k && forall i | 0 <= i < k :: window[i] < 256
  }

  /** The table of a windowed sketch holds no cell of the window itself. */
  ghost predicate OutsideWindow(items: set<nat>, w: nat) {
    forall c | c in items :: Col(c) < w || w + 8 <= Col(c)
  }

  /** The cells that differ from their column's default when the window is at w. */
  ghost function Surprising(s: set<nat>, k: nat, w: nat): set<nat> {
    set c: nat | c < 64 * k && ((Col(c) < w && c !in s) || (w + 8 <= Col(c) && c in s))
  }

  lemma TableIsSurprising(s: set<nat>, k: nat, w: nat, window: seq<nat>, items: set<nat>)
    requires Represents(s, k, w, window, items) && IsWindow(window, k) && OutsideWindow(items, w)
    ensures items == Surprising(s, k, w)
  {
    forall c: nat | c < 64 * k
      ensures c in items <==> ((Col(c) < w && c !in s) || (w + 8 <= Col(c) && c in s))
    {
      if w + 8 <= Col(c) {
        ByteBits(window[Row(c)], Col(c) - w);
      }
      assert c in s <==> DefaultBit(c, w, window) != (c in items);
    }
  }

  lemma ByteBits(b: nat, i: nat)
    requires b < 256
    ensures Bit(b, i) ==> i < 8
  {
    if Bit(b, i) {
      Pow2Values();
      BitBelow(b, i, 8);
    }
  }

  // ----- one coupon -----

  lemma AddSparse(s: set<nat>, k: nat, items: set<nat>, c: nat)
    requires Represents(s, k, 0, [], items) && c < 64 * k
    ensures c in s <==> c in items
    ensures Represents(s + {c}, k, 0, [], items + {c})
  {
  }

  lemma AddEarly(s: set<nat>, k: nat, w: nat, window: seq<nat>, items: set<nat>, c: nat)
    requires Represents(s, k, w, window, items) && c < 64 * k && Col(c) < w
    ensures c in s <==> c !in items
    ensures Represents(s + {c}, k, w, window, items - {c})
  {
  }

  lemma AddLate(s: set<nat>, k: nat, w: nat, window: seq<nat>, items: set<nat>, c: nat)
    requires Represents(s, k, w, window, items) && IsWindow(window, k) && c < 64 * k && w + 8 <= Col(c)
    ensures c in s <==> c in items
    ensures Represents(s + {c}, k, w, window, items + {c})
  {
    ByteBits(window[Row(c)], Col(c) - w);
  }

  lemma AddInWindow(s: set<nat>, k: nat, w: nat, window: seq<nat>, items: set<nat>, c: nat)
    requires Represents(s, k, w, window, items) && IsWindow(window, k) && OutsideWindow(items, w)
    requires c < 64 * k && w <= Col(c) < w + 8
    ensures Row(c) < |window|
    ensures var oldBits := window[Row(c)]; var newBits := Bitwise(Or, oldBits, Pow2(Col(c) - w));
            && (c in s <==> newBits == oldBits)
            && IsWindow(window[Row(c) := newBits], k)
            && Represents(s + {c}, k, w, window[Row(c) := newBits], items)
  {
    var row, j := Row(c), Col(c) - w;
    var oldBits, newBits := window[row], Bitwise(Or, window[row], Pow2(j));
    OrOneBit(oldBits, j);
    var window' := window[row := newBits];
    forall e: nat ensures e in s + {c} <==> (e < 64 * k && DefaultBit(e, w, window') != (e in items)) {
      assert e in s <==> (e < 64 * k && DefaultBit(e, w, window) != (e in items));
      if Row(e) == row && w <= Col(e) {
        assert Bit(newBits, Col(e) - w) == (Bit(oldBits, Col(e) - w) || Col(e) - w == j);
        assert Col(e) == Col(c) ==> e == c;
      }
    }
  }

  lemma OrOneBit(b: nat, j: nat)
    requires b < 256 && j < 8
    ensures var b' := Bitwise(Or, b, Pow2(j));
            && b' < 256
            && (forall i: nat :: Bit(b', i) == (Bit(b, i) || i == j))
            && (b' == b <==> Bit(b, j))
  {
    var m := Pow2(j);
    var b' := Bitwise(Or, b, m);
    Pow2Mono(j, 7);
    Pow2Values();
    assert Pow2(7) == 128;
    BitwiseFits(Or, b, m, 8);
    forall i: nat ensures Bit(b', i) == (Bit(b, i) || i == j) {
      BitwiseBit(Or, b, m, i);
      BitOne(j, i);
    }
    if Bit(b, j) {
      SameBits(b', b);
    }
  }

  // ----- bit matrices -----

  /** Bit col of row r is set exactly for the cells of s. */
  ghost predicate MatrixOf(m: seq<nat>, s: set<nat>) {
    && (forall c | c in s :: Row(c) < |m|)
    && (forall r: nat, col: nat | r < |m| :: Bit(m[r], col) <==> (col < 64 && Cell(r, col) in s))
  }

  ghost function Denoted(k: nat, w: nat, window: seq<nat>, items: set<nat>): set<nat> {
    set c: nat | c < 64 * k && DefaultBit(c, w, window) != (c in items)
  }

  function Toggle(s: set<nat>, c: nat): set<nat> {
    if c in s then s - {c} else s + {c}
  }

  lemma ToggleBit(m: seq<nat>, s: set<nat>, c: nat)
    requires MatrixOf(m, s) && Row(c) < |m|
    ensures MatrixOf(m[Row(c) := Bitwise(Xor, m[Row(c)], Pow2(Col(c)))], Toggle(s, c))
  {
    var oldRow, row := m[Row(c)], Bitwise(Xor, m[Row(c)], Pow2(Col(c)));
    forall col: nat ensures Bit(row, col) == (Bit(oldRow, col) != (col == Col(c))) {
      BitwiseBit(Xor, oldRow, Pow2(Col(c)), col);
      BitOne(Col(c), col);
    }
    forall r: nat, col: nat | col < 64 ensures Cell(r, col) == c <==> (r == Row(c) && col == Col(c)) {
      CellParts(r, col);
    }
  }

  lemma DefaultRow(w: nat, b: nat, i: nat)
    requires w <= 56 && b < 256
    ensures Bit(Pow2(w) - 1, i) == (i < w)
    ensures Bit(Bitwise(Or, Pow2(w) - 1, Shl(b, w)), i) == (i < w || (w <= i < 64 && Bit(b, i - w)))
  {
    BitMask(w, i);
    BitwiseBit(Or, Pow2(w) - 1, Shl(b, w), i);
    BitShl(b, w, i);
    if i >= w {
      ByteBits(b, i - w);
    }
  }

  /** Rows holding the column defaults, with and without the window. */
  lemma DefaultMatrix(m: seq<nat>, k: nat, w: nat, window: seq<nat>)
    requires |m| == k && w <= 56 && (window == [] || IsWindow(window, k))
    requires forall r: nat | r < k ::
               m[r] == if window == [] then Pow2(w) - 1 else Bitwise(Or, Pow2(w) - 1, Shl(window[r], w))
    ensures MatrixOf(m, Denoted(k, w, window, {}))
  {
    forall r: nat, col: nat | r < k
      ensures Bit(m[r], col) <==> (col < 64 && Cell(r, col) in Denoted(k, w, window, {}))
    {
      DefaultRow(w, if window == [] then 0 else window[r], col);
      if col < 64 {
        CellParts(r, col);
      }
    }
  }

  lemma DenotedToggle(k: nat, w: nat, window: seq<nat>, items: set<nat>, c: nat)
    requires c < 64 * k && c !in items
    ensures Denoted(k, w, window, items + {c}) == Toggle(Denoted(k, w, window, items), c)
  {
  }

  // ----- splitting matrix rows into window and surprises -----

  const ALL_ONES := U64_SIZE - 1

  function ClearWindowMask(w: nat): nat {
    Bitwise(Xor, Shl(0xff, w), ALL_ONES)
  }

  /** The row with its window cleared and its early zone flipped. */
  function SurprisePattern(row: nat, w: nat): nat {
    Bitwise(Xor, Bitwise(And, row, ClearWindowMask(w)), Pow2(w) - 1)
  }

  function WindowByte(row: nat, w: nat): nat {
    Bitwise(And, Shr(row, w), 0xff)
  }

  lemma MaskBits(i: nat)
    ensures Bit(0xff, i) == (i < 8)
    ensures Bit(ALL_ONES, i) == (i < 64)
  {
    Pow2Values();
    BitMask(8, i);
    BitMask(64, i);
  }

  lemma SurpriseBits(row: nat, w: nat, i: nat)
    requires w <= 56 && (Bit(row, i) ==> i < 64)
    ensures Bit(SurprisePattern(row, w), i) <==> (if i < w then !Bit(row, i) else w + 8 <= i && Bit(row, i))
  {
    BitwiseBit(Xor, Bitwise(And, row, ClearWindowMask(w)), Pow2(w) - 1, i);
    BitwiseBit(And, row, ClearWindowMask(w), i);
    BitwiseBit(Xor, Shl(0xff, w), ALL_ONES, i);
    BitShl(0xff, w, i);
    BitMask(w, i);
    MaskBits(i);
    if i >= w {
      MaskBits(i - w);
    }
  }

  lemma WindowBits(row: nat, w: nat, i: nat)
    ensures WindowByte(row, w) < 256
    ensures Bit(WindowByte(row, w), i) <==> (i < 8 && Bit(row, w + i))
  {
    BitwiseBit(And, Shr(row, w), 0xff, i);
    BitShr(row, w, i);
    MaskBits(i);
    Pow2Values();
    AndFits(Shr(row, w), 0xff, 8);
  }

  lemma {:induction false} AndFits(x: nat, y: nat, n: nat)
    requires y < Pow2(n)
    ensures Bitwise(And, x, y) < Pow2(n)
    decreases x + y
  {
    if n == 0 {
      AndNothing(x);
    } else if x != 0 || y != 0 {
      AndFits(x / 2, y / 2, n - 1);
    }
  }

  /** The cells of one row named by a pattern's bits. */
  ghost function RowCells(row: nat, pattern: nat): set<nat> {
    set col: nat | col < 64 && Bit(pattern, col) :: Cell(row, col)
  }

  ghost predicate Is64Bit(pattern: nat) {
    forall i: nat :: Bit(pattern, i) ==> i < 64
  }

  /** Erasing the lowest bit takes exactly that cell away. */
  lemma DrainBit(row: nat, pattern: nat)
    requires pattern > 0 && Is64Bit(pattern)
    ensures var col := TrailingZeros(pattern); var rest := Bitwise(Xor, pattern, Pow2(col));
            && col < 64 && rest < pattern && Is64Bit(rest)
            && Cell(row, col) !in RowCells(row, rest)
            && RowCells(row, pattern) == RowCells(row, rest) + {Cell(row, col)}
  {
    var col := TrailingZeros(pattern);
    var rest := Bitwise(Xor, pattern, Pow2(col));
    assert Bit(pattern, col);
    forall i: nat ensures Bit(rest, i) == (Bit(pattern, i) && i != col) {
      BitwiseBit(Xor, pattern, Pow2(col), i);
      BitOne(col, i);
    }
    EraseBit(pattern, col);
  }

  /** Inserts the cells of a row that its pattern names, lowest column first. */
  method DrainPattern(row: nat, pattern: nat, table: U32Table, ghost all: set<nat>, ghost start: nat)
    requires table.Valid() && Is64Bit(pattern) && JustFits(|table.items|, table.lgSize, start)
    requires RowCells(row, pattern) !! table.items
    requires RowCells(row, pattern) + table.items <= all
    requires forall c | c in all :: c < Pow2(table.numValidBits) && c != EMPTY
    requires Roomy(|all|, table.numValidBits)
    modifies table
    ensures table.Valid() && table.numValidBits == old(table.numValidBits)
    ensures table.items == old(table.items) + RowCells(row, pattern) && JustFits(|table.items|, table.lgSize, start)
  {
    hide RowCells, Is64Bit, U32Table.Valid, JustFits, Roomy;
    var rest := pattern;
    while rest != 0
      invariant table.Valid() && table.numValidBits == old(table.numValidBits)
      invariant Is64Bit(rest) && RowCells(row, rest) !! table.items && JustFits(|table.items|, table.lgSize, start)
      invariant table.items + RowCells(row, rest) == old(table.items) + RowCells(row, pattern)
      decreases rest
    {
      hide RowCells, Is64Bit, U32Table.Valid, JustFits, Roomy;
      rest := DrainLowest(row, rest, table, all, start);
    }
    NoCells(row);
  }

  method DrainLowest(row: nat, pattern: nat, table: U32Table, ghost all: set<nat>, ghost start: nat) returns (rest: nat)
    requires table.Valid() && Is64Bit(pattern) && pattern != 0 && JustFits(|table.items|, table.lgSize, start)
    requires RowCells(row, pattern) !! table.items
    requires RowCells(row, pattern) + table.items <= all
    requires forall c | c in all :: c < Pow2(table.numValidBits) && c != EMPTY
    requires Roomy(|all|, table.numValidBits)
    modifies table
    ensures table.Valid() && table.numValidBits == old(table.numValidBits)
    ensures rest < pattern && Is64Bit(rest) && RowCells(row, rest) !! table.items
    ensures table.items + RowCells(row, rest) == old(table.items) + RowCells(row, pattern)
    ensures JustFits(|table.items|, table.lgSize, start)
  {
    hide RowCells, Is64Bit, Pow2, Cell, U32Table.Valid, JustFits, U32Table.SizeWith, Bitwise, Roomy, LargestLgSize,
         TrailingZeros;
    DrainBit(row, pattern);
    var col := TrailingZeros(pattern);
    rest := Bitwise(Xor, pattern, Pow2(col)); // take the lowest column out
    SubsetSize(table.items + {Cell(row, col)}, all);
    RoomForLess(|table.items| + 1, |all|, table.numValidBits);
    table.OutgrowsUniverse(Cell(row, col));
    SizeWithFits(table, Cell(row, col), start);
    var isNovel := table.MaybeInsert(Cell(row, col));
    assert isNovel;
  }

  lemma RoomForLess(n: nat, m: nat, numValidBits: nat)
    requires n <= m && Roomy(m, numValidBits)
    ensures Roomy(n, numValidBits)
  {
  }

  lemma SizeWithFits(table: U32Table, item: nat, start: nat)
    requires table.Valid() && item !in table.items && JustFits(|table.items|, table.lgSize, start)
    ensures JustFits(|table.items + {item}|, table.SizeWith(item), start)
  {
    NextFits(|table.items|, table.lgSize, start);
    hide JustFits, Pow2, IsTable;
  }

  lemma NoCells(row: nat)
    ensures RowCells(row, 0) == {}
  {
    forall col: nat ensures !Bit(0, col) {
      ZeroBits(col);
    }
  }

  lemma RowPattern(m: seq<nat>, s: set<nat>, w: nat, i: nat, col: nat)
    requires MatrixOf(m, s) && i < |m| && w <= 56
    ensures Bit(SurprisePattern(m[i], w), col) ==> col < 64
    ensures col < 64 ==> (Bit(SurprisePattern(m[i], w), col) <==> Cell(i, col) in Surprising(s, i + 1, w))
  {
    hide SurprisePattern;
    assert Bit(m[i], col) <==> (col < 64 && Cell(i, col) in s);
    SurpriseBits(m[i], w, col);
    if col < 64 {
      CellParts(i, col);
    }
  }

  lemma RowSurprises(m: seq<nat>, s: set<nat>, w: nat, i: nat)
    requires MatrixOf(m, s) && i < |m| && w <= 56
    ensures Is64Bit(SurprisePattern(m[i], w))
    ensures RowCells(i, SurprisePattern(m[i], w)) !! Surprising(s, i, w)
    ensures Surprising(s, i + 1, w) == Surprising(s, i, w) + RowCells(i, SurprisePattern(m[i], w))
  {
    hide SurprisePattern, MatrixOf, Bit;
    var p := SurprisePattern(m[i], w);
    forall col: nat
      ensures Bit(p, col) ==> col < 64
      ensures col < 64 ==> (Bit(p, col) <==> Cell(i, col) in Surprising(s, i + 1, w))
    {
      RowPattern(m, s, w, i, col);
    }
    NextRow(s, w, i, p);
  }

  lemma NextRow(s: set<nat>, w: nat, i: nat, p: nat)
    requires forall col: nat | col < 64 :: Bit(p, col) <==> Cell(i, col) in Surprising(s, i + 1, w)
    ensures RowCells(i, p) !! Surprising(s, i, w)
    ensures Surprising(s, i + 1, w) == Surprising(s, i, w) + RowCells(i, p)
  {
    hide Bit;
    forall c: nat ensures c in RowCells(i, p) <==> c in Surprising(s, i + 1, w) && c >= 64 * i {
      if c >= 64 * i && c < 64 * (i + 1) {
        RowOf(c, i);
      }
    }
  }

  lemma RowOf(c: nat, i: nat)
    requires 64 * i <= c < 64 * (i + 1)
    ensures c == Cell(i, Col(c))
  {
  }

  lemma CellCount(lgK: nat)
    requires lgK <= MAX_LG_K
    ensures 64 * Pow2(lgK) == Pow2(6 + lgK) <= U32_SIZE
  {
    Pow2Add(6, lgK);
    Pow2Mono(6 + lgK, 32);
    Pow2Values();
  }

  lemma SurprisingCells(s: set<nat>, lgK: nat, w: nat)
    requires lgK <= MAX_LG_K && w <= 56 && EMPTY !in s
    ensures forall c | c in Surprising(s, Pow2(lgK), w) :: c < Pow2(6 + lgK) && c != EMPTY
    ensures forall i | 0 <= i <= Pow2(lgK) :: Surprising(s, i, w) <= Surprising(s, Pow2(lgK), w)
    ensures Surprising(s, 0, w) == {}
  {
    CellCount(lgK);
  }

  ghost predicate TableFits(s: set<nat>, lgK: nat, w: nat) {
    Roomy(|Surprising(s, Pow2(lgK), w)|, 6 + lgK)
  }

  ghost predicate InColumn(items: set<nat>, col: nat) {
    exists c | c in items :: Col(c) == col
  }

  /** The bits are those of the columns that have items. */
  ghost predicate Covers(ored: nat, items: set<nat>) {
    && (forall c | c in items :: Bit(ored, Col(c)))
    && (forall col: nat | Bit(ored, col) :: InColumn(items, col))
  }

  lemma OrCovers(ored: nat, items: set<nat>, row: nat, pattern: nat)
    requires Covers(ored, items) && Is64Bit(pattern)
    ensures Covers(Bitwise(Or, ored, pattern), items + RowCells(row, pattern))
  {
    forall col: nat | Bit(Bitwise(Or, ored, pattern), col) ensures InColumn(items + RowCells(row, pattern), col) {
      BitwiseBit(Or, ored, pattern, col);
      if Bit(ored, col) {
        var c :| c in items && Col(c) == col;
        assert c in items + RowCells(row, pattern);
      } else {
        CellParts(row, col);
        assert Cell(row, col) in items + RowCells(row, pattern);
      }
    }
    forall c | c in items + RowCells(row, pattern) ensures Bit(Bitwise(Or, ored, pattern), Col(c)) {
      BitwiseBit(Or, ored, pattern, Col(c));
      if c in RowCells(row, pattern) {
        var col: nat :| col < 64 && Bit(pattern, col) && c == Cell(row, col);
        CellParts(row, col);
      }
    }
  }

  /** The first i window bytes hold the matrix's columns w to w + 7. */
  ghost predicate WindowOf(window: seq<nat>, m: seq<nat>, w: nat, i: nat) {
    && i <= |window| && i <= |m|
    && forall r: nat | r < i :: window[r] == WindowByte(m[r], w)
  }

  /** Splits the first k rows at window offset w, in O(K) time: the loop of move_window and of the
      union's get_result_from_bit_matrix. */
  method ScanRows(matrix: seq<nat>, lgK: nat, w: nat, table: U32Table, ghost s: set<nat>)
    returns (window: seq<nat>, allSurprisesOred: nat)
    requires lgK <= MAX_LG_K && w <= 56 && |matrix| >= Pow2(lgK)
    requires MatrixOf(matrix, s) && EMPTY !in s
    requires table.Valid() && table.items == {} && table.numValidBits == 6 + lgK
    requires TableFits(s, lgK, w)
    modifies table
    ensures table.Valid() && table.numValidBits == 6 + lgK
    ensures table.items == Surprising(s, Pow2(lgK), w) && JustFits(|table.items|, table.lgSize, old(table.lgSize))
    ensures |window| == Pow2(lgK) && WindowOf(window, matrix, w, Pow2(lgK))
    ensures Covers(allSurprisesOred, table.items)
  {
    var k := Pow2(lgK);
    NoRowsScanned(s, lgK, w, matrix, seq(k, _ => 0));
    assert JustFits(0, table.lgSize, table.lgSize);
    hide MatrixOf, WindowOf, Covers, Surprising, Pow2, TableFits, U32Table.Valid, JustFits;
    window := seq(k, _ => 0);
    allSurprisesOred := 0;
    for i := 0 to k
      invariant table.Valid() && table.numValidBits == 6 + lgK
      invariant table.items == Surprising(s, i, w) && JustFits(|table.items|, table.lgSize, old(table.lgSize))
      invariant |window| == k && WindowOf(window, matrix, w, i)
      invariant Covers(allSurprisesOred, table.items)
    {
      hide MatrixOf, WindowOf, Covers, Surprising, Pow2, TableFits, U32Table.Valid, JustFits;
      window, allSurprisesOred := ScanRow(matrix, i, lgK, w, table, s, window, allSurprisesOred, old(table.lgSize));
    }
  }

  lemma NoRowsScanned(s: set<nat>, lgK: nat, w: nat, matrix: seq<nat>, window: seq<nat>)
    ensures Surprising(s, 0, w) == {} && Covers(0, {}) && WindowOf(window, matrix, w, 0)
  {
    forall col: nat ensures !Bit(0, col) {
      ZeroBits(col);
    }
  }

  method ScanRow(matrix: seq<nat>, i: nat, lgK: nat, w: nat, table: U32Table, ghost s: set<nat>,
                 window: seq<nat>, allSurprisesOred: nat, ghost start: nat)
    returns (window': seq<nat>, allSurprisesOred': nat)
    requires lgK <= MAX_LG_K && w <= 56 && i < Pow2(lgK) == |window| <= |matrix|
    requires MatrixOf(matrix, s) && EMPTY !in s
    requires table.Valid() && table.items == Surprising(s, i, w) && table.numValidBits == 6 + lgK
    requires TableFits(s, lgK, w)
    requires WindowOf(window, matrix, w, i) && Covers(allSurprisesOred, table.items)
    requires JustFits(|table.items|, table.lgSize, start)
    modifies table
    ensures table.Valid() && table.numValidBits == 6 + lgK
    ensures table.items == Surprising(s, i + 1, w) && JustFits(|table.items|, table.lgSize, start)
    ensures |window'| == |window| && WindowOf(window', matrix, w, i + 1)
    ensures Covers(allSurprisesOred', table.items)
  {
    ghost var all := Surprising(s, Pow2(lgK), w);
    SurprisingCells(s, lgK, w);
    hide RowCells, Is64Bit, MatrixOf, SurprisePattern, Covers, Surprising, Pow2, Roomy, U32Table.Valid, Bitwise,
         JustFits, WindowOf;
    NextWindowByte(window, matrix, w, i);
    var pattern := SurprisePattern(matrix[i], w);
    window' := window[i := WindowByte(matrix[i], w)];
    RowSurprises(matrix, s, w, i);
    OrCovers(allSurprisesOred, table.items, i, pattern);
    allSurprisesOred' := Bitwise(Or, allSurprisesOred, pattern);
    assert Surprising(s, i + 1, w) <= all;
    DrainPattern(i, pattern, table, all, start);
  }

  lemma NextWindowByte(window: seq<nat>, m: seq<nat>, w: nat, i: nat)
    requires WindowOf(window, m, w, i) && i < |window| && i < |m|
    ensures WindowOf(window[i := WindowByte(m[i], w)], m, w, i + 1)
  {
  }

  // ----- the sketch -----

  /** One coupon of the old table goes into the window, or into the new table. */
  method SplitCoupon(rowCol: nat, lgK: nat, window: seq<nat>, newTable: U32Table, ghost seen: set<nat>,
                     ghost coupons: set<nat>) returns (window': seq<nat>)
    requires lgK <= MAX_LG_K && newTable.Valid() && newTable.numValidBits == 6 + lgK
    requires rowCol != EMPTY && rowCol < 64 * Pow2(lgK) && rowCol in coupons && rowCol !in seen
    requires seen <= coupons && newTable.items <= seen && Roomy(|coupons|, 6 + lgK)
    requires Represents(seen, Pow2(lgK), 0, window, newTable.items) && JustFits(|newTable.items|, newTable.lgSize, 2)
    requires IsWindow(window, Pow2(lgK)) && OutsideWindow(newTable.items, 0)
    modifies newTable
    ensures newTable.Valid() && newTable.numValidBits == 6 + lgK && newTable.items <= seen + {rowCol}
    ensures Represents(seen + {rowCol}, Pow2(lgK), 0, window', newTable.items)
    ensures JustFits(|newTable.items|, newTable.lgSize, 2)
    ensures IsWindow(window', Pow2(lgK)) && OutsideWindow(newTable.items, 0)
  {
    hide Represents, IsWindow, OutsideWindow, Pow2, JustFits, U32Table.Valid, U32Table.SizeWith;
    var col := Col(rowCol);
    CellCount(lgK);
    window' := window;
    if col < 8 {
      var row := Row(rowCol);
      AddInWindow(seen, Pow2(lgK), 0, window, newTable.items, rowCol);
      window' := window[row := Bitwise(Or, window[row], Pow2(col))];
    } else {
      AddLate(seen, Pow2(lgK), 0, window, newTable.items, rowCol);
      StaysOutside(newTable.items, 0, rowCol);
      SubsetSize(newTable.items + {rowCol}, coupons);
      newTable.OutgrowsUniverse(rowCol);
      SizeWithFits(newTable, rowCol, 2);
      var isNovel := newTable.MaybeInsert(rowCol);
      assert isNovel;
    }
  }

  /** Moves the coupons in columns 0 to 7 of a sparse table into a window, the others into a new table. */
  method SplitTable(oldSlots: seq<nat>, lgK: nat, ghost coupons: set<nat>)
    returns (window: seq<nat>, newTable: U32Table)
    requires lgK <= MAX_LG_K && Holds(oldSlots, coupons) && Distinct(oldSlots)
    requires forall c | c in coupons :: c < 64 * Pow2(lgK)
    requires Roomy(|coupons|, 6 + lgK)
    ensures fresh(newTable) && newTable.Valid() && newTable.numValidBits == 6 + lgK
    ensures IsWindow(window, Pow2(lgK)) && OutsideWindow(newTable.items, 0)
    ensures Represents(coupons, Pow2(lgK), 0, window, newTable.items)
    ensures JustFits(|newTable.items|, newTable.lgSize, 2)
  {
    hide Holds, Distinct, Represents, IsWindow, OutsideWindow, Pow2, JustFits;
    ghost var k, seen := Pow2(lgK), {};
    CellCount(lgK);
    HoldsNothing(oldSlots);
    ZeroWindow(k);
    NothingInside(0);
    window := seq(Pow2(lgK), _ => 0);
    newTable := new U32Table(2, 6 + lgK);
    for i := 0 to |oldSlots|
      invariant fresh(newTable) && newTable.Valid() && newTable.numValidBits == 6 + lgK
      invariant Holds(oldSlots[..i], seen) && seen <= coupons && newTable.items <= seen
      invariant Represents(seen, k, 0, window, newTable.items) && JustFits(|newTable.items|, newTable.lgSize, 2)
      invariant IsWindow(window, k) && OutsideWindow(newTable.items, 0)
    {
      hide Holds, Distinct, Represents, IsWindow, OutsideWindow, Pow2, IsTable, JustFits;
      HoldsNext(oldSlots, i, seen, coupons);
      if oldSlots[i] != EMPTY {
        window := SplitCoupon(oldSlots[i], lgK, window, newTable, seen, coupons);
        seen := seen + {oldSlots[i]};
      }
    }
    HoldsUnique(oldSlots, seen, coupons);
  }

  /** A set of coupons that a sketch with window offset w can hold, and slide to if it must. */
  ghost predicate Absorbable(s: set<nat>, lgK: nat, w: nat) {
    && 8 * |s| < 475 * Pow2(lgK)
    && TableFits(s, lgK, w)
    && (8 * |s| >= SlideLimit(lgK, w) ==> TableFits(s, lgK, w + 1))
  }

  /** The fields of a sketch describe the coupon set s, wherever the window stands. */
  ghost predicate Describes(s: set<nat>, lgK: nat, w: nat, window: seq<nat>, items: set<nat>, fic: nat) {
    && (forall c | c in s :: IsCoupon(c, Pow2(lgK)))
    && Represents(s, Pow2(lgK), w, window, items)
    && fic <= w <= 56
    && (forall c | c in items :: fic <= Col(c))
    && (window == [] ==> w == 0)
    && (window != [] ==> IsWindow(window, Pow2(lgK)) && OutsideWindow(items, w))
  }

  /** The first column of a surprise, or that of the window if there is none before it. */
  ghost predicate FirstInteresting(items: set<nat>, w: nat, fic: nat) {
    fic <= w && (forall c | c in items :: fic <= Col(c)) && (fic < w ==> InColumn(items, fic))
  }

  /** The window exists, and stands, where c coupons want it. */
  ghost predicate InPlace(lgK: nat, c: nat, w: nat, windowed: bool) {
    && (windowed <==> 32 * c >= 3 * Pow2(lgK))
    && 8 * c < SlideLimit(lgK, w)
    && (w > 0 ==> 8 * c >= OffsetFloor(lgK, w))
  }

  class CpcSketch {
    var lgK: nat
    var numCoupons: nat
    var table: U32Table
    var window: seq<nat>
    var windowOffset: nat
    var firstInterestingColumn: nat
    ghost var coupons: set<nat>

    ghost predicate Stored()
      reads this, table
    {
      && MIN_LG_K <= lgK <= MAX_LG_K
      && table.Valid() && table.numValidBits == 6 + lgK
      && numCoupons == |coupons|
      && Describes(coupons, lgK, windowOffset, window, table.items, firstInterestingColumn)
    }

    ghost predicate Valid()
      reads this, table
    {
      Stored() && InPlace(lgK, numCoupons, windowOffset, window != [])
    }

    constructor (lgK: nat)
      requires MIN_LG_K <= lgK <= MAX_LG_K
      ensures Valid() && fresh(table) && this.lgK == lgK && coupons == {}
      ensures table.lgSize == 2 && firstInterestingColumn == 0
    {
      this.lgK, numCoupons, window, windowOffset, firstInterestingColumn := lgK, 0, [], 0, 0;
      table := new U32Table(2, 6 + lgK);
      coupons := {};
    }

    constructor Copy(other: CpcSketch)
      requires other.Valid()
      ensures Valid() && fresh(table) && lgK == other.lgK && coupons == other.coupons
      ensures windowOffset == other.windowOffset && firstInterestingColumn == other.firstInterestingColumn
      ensures window == other.window && table.slots == other.table.slots
    {
      lgK, numCoupons, window := other.lgK, other.numCoupons, other.window;
      windowOffset, firstInterestingColumn := other.windowOffset, other.firstInterestingColumn;
      table := new U32Table.Copy(other.table);
      coupons := other.coupons;
    }

    /** A sketch from its parts; the window offset follows from the number of coupons. */
    constructor FromParts(lgK: nat, numCoupons: nat, firstInterestingColumn: nat, table: U32Table, window: seq<nat>,
                          ghost coupons: set<nat>)
      requires MIN_LG_K <= lgK <= MAX_LG_K && table.Valid() && table.numValidBits == 6 + lgK
      requires numCoupons == |coupons|
      requires var w := DetermineCorrectOffset(lgK, numCoupons);
               && Describes(coupons, lgK, w, window, table.items, firstInterestingColumn)
               && InPlace(lgK, numCoupons, w, window != [])
      ensures Valid() && this.table == table && this.lgK == lgK && this.coupons == coupons
      ensures this.numCoupons == numCoupons && this.window == window
      ensures windowOffset == DetermineCorrectOffset(lgK, numCoupons)
      ensures this.firstInterestingColumn == firstInterestingColumn
    {
      this.lgK, this.numCoupons, this.firstInterestingColumn := lgK, numCoupons, firstInterestingColumn;
      this.table, this.window := table, window;
      windowOffset := DetermineCorrectOffset(lgK, numCoupons);
      this.coupons := coupons;
    }

    /** The first interesting column changes only when the window slides. */
    ghost predicate InterestFollows(offset: nat, fic: nat)
      reads this, table
    {
      if windowOffset == offset then firstInterestingColumn == fic
      else FirstInteresting(table.items, windowOffset, firstInterestingColumn)
    }

    /** The full K x 64 matrix that the sketch stands for. */
    method BuildBitMatrix() returns (matrix: seq<nat>)
      requires Stored() && (numCoupons == 0 ==> window == [])
      ensures |matrix| == Pow2(lgK) && MatrixOf(matrix, coupons)
    {
      hide Describes, Denoted, MatrixOf, Pow2;
      DenotedBy(coupons, lgK, windowOffset, window, table.items, firstInterestingColumn);
      var k := Pow2(lgK);
      var defaultRow := Pow2(windowOffset) - 1;
      matrix := seq(k, _ => defaultRow);
      ghost var w := windowOffset;
      if numCoupons == 0 {
        DefaultMatrix(matrix, k, w, []);
        return;
      }
      if |window| > 0 {
        for i := 0 to k
          invariant |matrix| == k
          invariant forall r: nat | r < i :: matrix[r] == Bitwise(Or, defaultRow, Shl(window[r], windowOffset))
          invariant forall r: nat | i <= r < k :: matrix[r] == defaultRow
        {
          matrix := matrix[i := Bitwise(Or, matrix[i], Shl(window[i], windowOffset))];
        }
      }
      DefaultMatrix(matrix, k, w, window);
      matrix := FlipTableCells(matrix, k);
    }

    /** Flips the cells in the table from their default values. */
    method FlipTableCells(defaults: seq<nat>, ghost k: nat) returns (matrix: seq<nat>)
      requires table.Valid() && (forall c | c in table.items :: c < 64 * k)
      requires |defaults| == k && MatrixOf(defaults, Denoted(k, windowOffset, window, {}))
      ensures |matrix| == k && MatrixOf(matrix, Denoted(k, windowOffset, window, table.items))
    {
      matrix := defaults;
      ghost var seen := {};
      HoldsNothing(table.slots);
      for i := 0 to |table.slots|
        invariant |matrix| == k && Holds(table.slots[..i], seen) && seen <= table.items
        invariant MatrixOf(matrix, Denoted(k, windowOffset, window, seen))
      {
        hide Holds, Distinct, MatrixOf, Denoted, Pow2;
        var rowCol := table.slots[i];
        HoldsNext(table.slots, i, seen, table.items);
        if rowCol != EMPTY {
          var row, col := Row(rowCol), Col(rowCol);
          ToggleBit(matrix, Denoted(k, windowOffset, window, seen), rowCol);
          DenotedToggle(k, windowOffset, window, seen, rowCol);
          matrix := matrix[row := Bitwise(Xor, matrix[row], Pow2(col))];
          seen := seen + {rowCol};
        }
      }
      HoldsUnique(table.slots, seen, table.items);
    }

    /** Collects one coupon, unless the columns below firstInterestingColumn already rule it out. */
    method RowColUpdate(rowCol: nat)
      requires Valid() && IsCoupon(rowCol, Pow2(lgK))
      requires rowCol in coupons || Absorbable(coupons + {rowCol}, lgK, windowOffset)
      modifies this, table
      ensures Valid() && lgK == old(lgK) && (table == old(table) || fresh(table))
      ensures coupons == old(coupons) + {rowCol}
      ensures InterestFollows(old(windowOffset), old(firstInterestingColumn))
    {
      hide U32Table.Valid, Describes, InPlace, Absorbable, IsCoupon, Pow2, FirstInteresting;
      var col := Col(rowCol);
      if col < firstInterestingColumn {
        UninterestingIsOld(coupons, lgK, windowOffset, window, table.items, firstInterestingColumn, rowCol);
        return;
      }
      if |window| == 0 {
        UpdateSparse(rowCol);
      } else {
        UpdateWindowed(rowCol);
      }
    }

    method UpdateSparse(rowCol: nat)
      requires Valid() && window == [] && IsCoupon(rowCol, Pow2(lgK))
      modifies this, table
      ensures Valid() && lgK == old(lgK) && (table == old(table) || fresh(table))
      ensures coupons == old(coupons) + {rowCol}
      ensures InterestFollows(old(windowOffset), old(firstInterestingColumn))
    {
      hide U32Table.Valid, Describes, InPlace, IsCoupon, Pow2, FirstInteresting;
      SparseRoom(coupons, lgK, windowOffset, window, table.items, firstInterestingColumn, rowCol);
      table.OutgrowsUniverse(rowCol);
      var isNovel := table.MaybeInsert(rowCol);
      coupons := coupons + {rowCol};
      if isNovel {
        numCoupons := numCoupons + 1;
        if 32 * numCoupons >= 3 * Pow2(lgK) {
          PromoteSparseToWindowed();
        }
      }
    }

    method PromoteSparseToWindowed()
      requires Stored() && window == []
      requires 3 * Pow2(lgK) <= 32 * numCoupons && 32 * (numCoupons - 1) < 3 * Pow2(lgK)
      modifies this
      ensures Valid() && lgK == old(lgK) && fresh(table) && coupons == old(coupons)
      ensures windowOffset == old(windowOffset) && firstInterestingColumn == old(firstInterestingColumn)
      ensures JustFits(|table.items|, table.lgSize, 2)
    {
      hide U32Table.Valid, Describes, InPlace, Represents, IsWindow, OutsideWindow, IsCoupon, Pow2;
      SparseCounts(lgK, numCoupons - 1);
      // the exception "wrong c32" cannot be thrown
      assert 32 * numCoupons == 3 * Pow2(lgK) || (lgK == 4 && 32 * numCoupons > 3 * Pow2(lgK));
      SparseTable(coupons, lgK, windowOffset, table.items, firstInterestingColumn);
      table.SlotsHoldItems();
      window, table := SplitTable(table.slots, lgK, coupons);
      Promoted(coupons, lgK, window, table.items);
    }

    // for every flavor with a window
    method UpdateWindowed(rowCol: nat)
      requires Valid() && window != [] && IsCoupon(rowCol, Pow2(lgK)) && firstInterestingColumn <= Col(rowCol)
      requires rowCol in coupons || Absorbable(coupons + {rowCol}, lgK, windowOffset)
      modifies this, table
      ensures Valid() && lgK == old(lgK) && table == old(table)
      ensures coupons == old(coupons) + {rowCol}
      ensures InterestFollows(old(windowOffset), old(firstInterestingColumn))
    {
      hide U32Table.Valid, Describes, InPlace, TableFits, SlideLimit, IsCoupon, Pow2, Col, FirstInteresting;
      ghost var w := windowOffset;
      var isNovel := UpdateCell(rowCol);
      assert !isNovel ==> coupons == old(coupons);
      if isNovel {
        numCoupons := numCoupons + 1;
        WhenToSlide(old(coupons), coupons, lgK, w);
        if 8 * numCoupons >= SlideLimit(lgK, windowOffset) {
          MoveWindow();
        }
      }
    }

    /** The cell's own column decides where its bit is kept. */
    method UpdateCell(rowCol: nat) returns (isNovel: bool)
      requires Stored() && window != [] && IsCoupon(rowCol, Pow2(lgK)) && firstInterestingColumn <= Col(rowCol)
      requires rowCol in coupons || TableFits(coupons + {rowCol}, lgK, windowOffset)
      modifies `window, `coupons, table
      ensures table.Valid() && table.numValidBits == 6 + lgK && window != []
      ensures coupons == old(coupons) + {rowCol} && isNovel == (rowCol !in old(coupons))
      ensures Describes(coupons, lgK, windowOffset, window, table.items, firstInterestingColumn)
    {
      hide U32Table.Valid, Describes, IsCoupon, TableFits, Pow2;
      isNovel := false;
      var col := Col(rowCol);
      CouponInTable(rowCol, lgK);
      if col < windowOffset { // left of the window the table holds what is missing
        DescribeEarly(coupons, lgK, windowOffset, window, table.items, firstInterestingColumn, rowCol);
        isNovel := table.MaybeDelete(rowCol);
      } else if col < windowOffset + 8 { // a bit of the window's own bytes
        DescribeInWindow(coupons, lgK, windowOffset, window, table.items, firstInterestingColumn, rowCol);
        var row := Row(rowCol);
        var oldBits := window[row];
        var newBits := Bitwise(Or, oldBits, Pow2(col - windowOffset));
        if newBits != oldBits {
          window := window[row := newBits];
          isNovel := true;
        } else {
          assert window[row := newBits] == window;
        }
      } else { // right of it, what has been collected
        DescribeLate(coupons, lgK, windowOffset, window, table.items, firstInterestingColumn, rowCol);
        table.OutgrowsUniverse(rowCol);
        isNovel := table.MaybeInsert(rowCol);
      }
      coupons := coupons + {rowCol};
    }

    method MoveWindow()
      requires Stored() && window != []
      requires 8 * numCoupons < 475 * Pow2(lgK)
      requires SlideLimit(lgK, windowOffset) <= 8 * numCoupons < SlideLimit(lgK, windowOffset) + 8
      requires TableFits(coupons, lgK, windowOffset + 1)
      modifies this, table
      ensures Valid() && lgK == old(lgK) && table == old(table) && coupons == old(coupons)
      ensures windowOffset == old(windowOffset) + 1 && FirstInteresting(table.items, windowOffset, firstInterestingColumn)
      ensures JustFits(|table.items|, table.lgSize, old(table.lgSize))
    {
      hide U32Table.Valid, Describes, InPlace, TableFits, MatrixOf, WindowOf, Covers, Pow2, SlideLimit,
           FirstInteresting, JustFits;
      var newOffset := windowOffset + 1;
      SlideCounts(lgK, numCoupons, windowOffset);
      // the exceptions "new_offset > 56" and "new_offset is wrong" cannot be thrown
      assert newOffset <= 56 && newOffset == DetermineCorrectOffset(lgK, numCoupons);
      NoSentinel(coupons, lgK, windowOffset, window, table.items, firstInterestingColumn);
      var bitMatrix := BuildBitMatrix();
      table.Clear();
      var allSurprisesOred;
      window, allSurprisesOred := ScanRows(bitMatrix, lgK, newOffset, table, coupons);
      windowOffset := newOffset;
      firstInterestingColumn := CountTrailingZeros(allSurprisesOred);
      if firstInterestingColumn > newOffset {
        firstInterestingColumn := newOffset; // never right of the window
      }
      Rewindowed(coupons, lgK, newOffset, window, bitMatrix, allSurprisesOred, firstInterestingColumn);
    }
  }

  // ----- what each step does to the description -----

  lemma DenotedBy(s: set<nat>, lgK: nat, w: nat, window: seq<nat>, items: set<nat>, fic: nat)
    requires Describes(s, lgK, w, window, items, fic)
    ensures s == Denoted(Pow2(lgK), w, window, items)
    ensures |s| == 0 && window == [] ==> s == Denoted(Pow2(lgK), w, [], {})
    ensures w <= 56 && (window == [] || IsWindow(window, Pow2(lgK)))
    ensures forall c | c in items :: c < 64 * Pow2(lgK)
  {
    hide Pow2;
  }

  lemma UninterestingIsOld(s: set<nat>, lgK: nat, w: nat, window: seq<nat>, items: set<nat>, fic: nat, c: nat)
    requires Describes(s, lgK, w, window, items, fic) && IsCoupon(c, Pow2(lgK)) && Col(c) < fic
    ensures c in s && s + {c} == s
  {
    hide Pow2;
  }

  lemma CouponInTable(c: nat, lgK: nat)
    requires lgK <= MAX_LG_K && IsCoupon(c, Pow2(lgK))
    ensures c < Pow2(6 + lgK) && c != EMPTY
  {
    CellCount(lgK);
  }

  lemma SparseTable(s: set<nat>, lgK: nat, w: nat, items: set<nat>, fic: nat)
    requires Describes(s, lgK, w, [], items, fic)
    ensures w == 0 && fic == 0 && items == s
    ensures forall c | c in s :: IsCoupon(c, Pow2(lgK)) && c < 64 * Pow2(lgK)
  {
    hide Pow2;
  }

  lemma SparseRoom(s: set<nat>, lgK: nat, w: nat, window: seq<nat>, items: set<nat>, fic: nat, c: nat)
    requires MIN_LG_K <= lgK <= MAX_LG_K && IsCoupon(c, Pow2(lgK))
    requires window == [] && Describes(s, lgK, w, [], items, fic) && InPlace(lgK, |s|, w, false)
    ensures c < Pow2(6 + lgK) && c != EMPTY && items == s
    ensures Roomy(|s| + 1, 6 + lgK)
    ensures Describes(s + {c}, lgK, w, [], items + {c}, fic)
    ensures w == 0 && 32 * |s| < 3 * Pow2(lgK) && (c in s ==> s + {c} == s)
    ensures 32 * (|s| + 1) < 3 * Pow2(lgK) ==> InPlace(lgK, |s| + 1, w, false)
  {
    CouponInTable(c, lgK);
    CellCount(lgK);
    SparseCounts(lgK, |s|);
    SparseTable(s, lgK, w, items, fic);
    SlideFromZero(lgK);
    hide SlideLimit, Pow2;
    AddSparse(s, Pow2(lgK), items, c);
  }

  lemma RowCount(lgK: nat)
    requires MIN_LG_K <= lgK
    ensures Pow2(lgK) >= 16
    ensures lgK > 4 ==> Pow2(lgK) == 32 * Pow2(lgK - 5)
  {
    Pow2Mono(4, lgK);
    assert Pow2(3) == 8 && Pow2(4) == 16 && Pow2(5) == 32;
    if lgK > 4 {
      Pow2Add(5, lgK - 5);
    }
  }

  /** The largest table has room for 12 items per row at any lgK. */
  lemma RoomPerRow(lgK: nat, n: nat)
    requires lgK <= MAX_LG_K && n <= 12 * Pow2(lgK)
    ensures Roomy(n, 6 + lgK)
  {
    Pow2Mono(4 + lgK, LargestLgSize(6 + lgK));
    SixteenTimes(lgK);
    hide Pow2, LargestLgSize;
  }

  lemma SixteenTimes(lgK: nat)
    ensures Pow2(4 + lgK) == 16 * Pow2(lgK)
  {
    Pow2Add(4, lgK);
    assert Pow2(4) == 16;
  }

  lemma SparseCounts(lgK: nat, c: nat)
    requires MIN_LG_K <= lgK <= MAX_LG_K && 32 * c < 3 * Pow2(lgK)
    ensures Pow2(lgK) >= 16
    ensures Roomy(c + 2, 6 + lgK) && 8 * (c + 1) < 27 * Pow2(lgK)
    ensures 32 * (c + 1) >= 3 * Pow2(lgK) ==> 32 * (c + 1) == 3 * Pow2(lgK) || lgK == 4
  {
    RowCount(lgK);
    if lgK > 4 {
      NextMultiple(c, Pow2(lgK), Pow2(lgK - 5));
    }
    hide *;
    RoomPerRow(lgK, c + 2);
  }

  lemma NextMultiple(c: nat, k: nat, p: nat)
    requires 32 * c < 3 * k && k == 32 * p
    ensures 32 * (c + 1) <= 3 * k
  {
    assert c < 3 * p;
  }

  lemma SlideFromZero(lgK: nat)
    ensures SlideLimit(lgK, 0) == 27 * Pow2(lgK)
  {
  }

  lemma ZeroWindow(k: nat)
    ensures IsWindow(seq(k, _ => 0), k) && Represents({}, k, 0, seq(k, _ => 0), {})
  {
    forall i: nat ensures !Bit(0, i) {
      ZeroBits(i);
    }
  }

  lemma NothingInside(w: nat)
    ensures OutsideWindow({}, w)
  {
  }

  lemma StaysOutside(items: set<nat>, w: nat, c: nat)
    requires OutsideWindow(items, w) && w + 8 <= Col(c)
    ensures OutsideWindow(items + {c}, w)
  {
  }

  lemma Promoted(s: set<nat>, lgK: nat, window: seq<nat>, items: set<nat>)
    requires MIN_LG_K <= lgK <= MAX_LG_K && (forall c | c in s :: IsCoupon(c, Pow2(lgK)))
    requires IsWindow(window, Pow2(lgK)) && OutsideWindow(items, 0) && Represents(s, Pow2(lgK), 0, window, items)
    requires 3 * Pow2(lgK) <= 32 * |s| && 32 * (|s| - 1) < 3 * Pow2(lgK)
    ensures window != [] && Describes(s, lgK, 0, window, items, 0) && InPlace(lgK, |s|, 0, true)
  {
    SparseCounts(lgK, |s| - 1);
    SlideFromZero(lgK);
    hide SlideLimit, Pow2, Represents;
  }

  lemma DescribeEarly(s: set<nat>, lgK: nat, w: nat, window: seq<nat>, items: set<nat>, fic: nat, c: nat)
    requires Describes(s, lgK, w, window, items, fic) && IsCoupon(c, Pow2(lgK)) && Col(c) < w
    ensures c in s <==> c !in items
    ensures Describes(s + {c}, lgK, w, window, items - {c}, fic)
  {
    hide Pow2;
    AddEarly(s, Pow2(lgK), w, window, items, c);
    hide Represents, Col;
  }

  lemma DescribeInWindow(s: set<nat>, lgK: nat, w: nat, window: seq<nat>, items: set<nat>, fic: nat, c: nat)
    requires Describes(s, lgK, w, window, items, fic) && window != []
    requires IsCoupon(c, Pow2(lgK)) && w <= Col(c) < w + 8
    ensures Row(c) < |window|
    ensures var oldBits := window[Row(c)]; var newBits := Bitwise(Or, oldBits, Pow2(Col(c) - w));
            && (c in s <==> newBits == oldBits)
            && Describes(s + {c}, lgK, w, window[Row(c) := newBits], items, fic)
  {
    hide Pow2;
    AddInWindow(s, Pow2(lgK), w, window, items, c);
    hide Represents, Col, Bitwise;
  }

  lemma DescribeLate(s: set<nat>, lgK: nat, w: nat, window: seq<nat>, items: set<nat>, fic: nat, c: nat)
    requires Describes(s, lgK, w, window, items, fic) && window != []
    requires IsCoupon(c, Pow2(lgK)) && w + 8 <= Col(c) && fic <= Col(c)
    requires c in s || TableFits(s + {c}, lgK, w)
    ensures c in s <==> c in items
    ensures Describes(s + {c}, lgK, w, window, items + {c}, fic)
    ensures c in items || Roomy(|items| + 1, 6 + lgK)
  {
    hide Pow2;
    AddLate(s, Pow2(lgK), w, window, items, c);
    StaysOutside(items, w, c);
    TableIsSurprising(s + {c}, Pow2(lgK), w, window, items + {c});
    hide Represents, Col;
  }

  /** One new coupon makes one slide due at most, and the sketch can take it. */
  lemma WhenToSlide(s: set<nat>, t: set<nat>, lgK: nat, w: nat)
    requires InPlace(lgK, |s|, w, true) && |t| == |s| + 1 && Absorbable(t, lgK, w)
    ensures 8 * |t| < SlideLimit(lgK, w) ==> InPlace(lgK, |t|, w, true)
    ensures 8 * |t| >= SlideLimit(lgK, w) ==>
              8 * |t| < 475 * Pow2(lgK) && 8 * |t| < SlideLimit(lgK, w) + 8 && TableFits(t, lgK, w + 1)
  {
    hide Pow2, SlideLimit, OffsetFloor, TableFits;
  }

  lemma NoSentinel(s: set<nat>, lgK: nat, w: nat, window: seq<nat>, items: set<nat>, fic: nat)
    requires Describes(s, lgK, w, window, items, fic)
    ensures EMPTY !in s && (forall c | c in s :: IsCoupon(c, Pow2(lgK)))
  {
  }

  lemma SlideCounts(lgK: nat, c: nat, w: nat)
    requires MIN_LG_K <= lgK && 8 * c < 475 * Pow2(lgK)
    requires SlideLimit(lgK, w) <= 8 * c < SlideLimit(lgK, w) + 8
    ensures w + 1 <= 56 && c > 0
    ensures DetermineCorrectOffset(lgK, c) == w + 1
    ensures InPlace(lgK, c, w + 1, true)
  {
    RowCount(lgK);
    LimitsOf(lgK, w);
    LimitsOf(lgK, w + 1);
    var k := Pow2(lgK);
    if w >= 56 {
      MulMono(k, 56, w);
    }
    assert k * (w + 1) == k * w + k;
    hide Pow2, DetermineCorrectOffset, SlideLimit, OffsetFloor;
    OffsetRange(lgK, c, w + 1);
  }

  /** Window bytes and surprises taken from the matrix of s stand for s. */
  lemma RepresentsRows(s: set<nat>, k: nat, w: nat, window: seq<nat>, m: seq<nat>)
    requires MatrixOf(m, s) && |m| >= k && |window| == k && WindowOf(window, m, w, k) && w <= 56
    requires forall c | c in s :: c < 64 * k
    ensures IsWindow(window, k) && OutsideWindow(Surprising(s, k, w), w)
    ensures Represents(s, k, w, window, Surprising(s, k, w))
  {
    hide DefaultBit, MatrixOf, Col;
    forall i | 0 <= i < k ensures window[i] < 256 {
      WindowBits(m[i], w, 0);
    }
    forall c: nat | c < 64 * k ensures c in s <==> DefaultBit(c, w, window) != (c in Surprising(s, k, w)) {
      RepresentsCell(s, k, w, window, m, c);
    }
  }

  lemma RepresentsCell(s: set<nat>, k: nat, w: nat, window: seq<nat>, m: seq<nat>, c: nat)
    requires MatrixOf(m, s) && |m| >= k && |window| == k && WindowOf(window, m, w, k) && w <= 56 && c < 64 * k
    ensures c in s <==> DefaultBit(c, w, window) != (c in Surprising(s, k, w))
  {
    var r, col := Row(c), Col(c);
    assert c == Cell(r, col);
    assert Bit(m[r], col) <==> c in s;
    hide MatrixOf, Bit, WindowByte;
    assert window[r] == WindowByte(m[r], w);
    if col >= w {
      WindowBits(m[r], w, col - w);
    }
  }

  lemma Rewindowed(s: set<nat>, lgK: nat, w: nat, window: seq<nat>, m: seq<nat>, ored: nat, fic: nat)
    requires MatrixOf(m, s) && |m| >= Pow2(lgK) && |window| == Pow2(lgK) && WindowOf(window, m, w, Pow2(lgK))
    requires w <= 56 && (forall c | c in s :: IsCoupon(c, Pow2(lgK)))
    requires Covers(ored, Surprising(s, Pow2(lgK), w))
    requires fic == if CountTrailingZeros(ored) > w then w else CountTrailingZeros(ored)
    ensures window != [] && Describes(s, lgK, w, window, Surprising(s, Pow2(lgK), w), fic)
    ensures FirstInteresting(Surprising(s, Pow2(lgK), w), w, fic)
  {
    assert Pow2(lgK) >= 1;
    hide Pow2;
    RepresentsRows(s, Pow2(lgK), w, window, m);
    LeastColumn(ored, Surprising(s, Pow2(lgK), w));
    hide Represents, MatrixOf, Surprising, Covers, Col, CountTrailingZeros;
  }

  /** count_trailing_zeros_in_u64 */
  function CountTrailingZeros(w: nat): nat {
    if w == 0 then 64 else TrailingZeros(w)
  }

  lemma LeastColumn(ored: nat, items: set<nat>)
    requires Covers(ored, items)
    ensures forall c | c in items :: CountTrailingZeros(ored) <= Col(c)
    ensures CountTrailingZeros(ored) < 64 ==> InColumn(items, CountTrailingZeros(ored))
  {
    forall c | c in items ensures CountTrailingZeros(ored) <= Col(c) {
      if ored == 0 {
        ZeroBits(Col(c));
      } else if Col(c) < TrailingZeros(ored) {
        TrailingZerosLeast(ored, Col(c));
      }
    }
  }
}
