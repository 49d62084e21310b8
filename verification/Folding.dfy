/** Downsampling: the coupon sets of a CPC sketch taken at a smaller lgK. */
module Folding {
  import opened Words
  import opened CpcSketches
  import opened CpcUtil

  /** Rows are reduced modulo 2^lgK, columns are kept: row_col & dst_mask. */
  function FoldCell(c: nat, lgK: nat): nat {
    c % Pow2(6 + lgK)
  }

  ghost function Fold(s: set<nat>, lgK: nat): set<nat> {
    set c | c in s :: FoldCell(c, lgK)
  }

  ghost predicate FitsRows(s: set<nat>, lgK: nat) {
    forall c | c in s :: c < Pow2(6 + lgK)
  }

  lemma FoldCellParts(c: nat, lgK: nat)
    ensures Row(FoldCell(c, lgK)) == Row(c) % Pow2(lgK) < Pow2(lgK)
    ensures Col(FoldCell(c, lgK)) == Col(c)
    ensures FoldCell(c, lgK) < 64 * Pow2(lgK) == Pow2(6 + lgK)
  {
    var k := Pow2(lgK);
    Pow2Add(6, lgK);
    assert Pow2(6) == 64;
    var q, r := Row(c) / k, Row(c) % k;
    assert Row(c) == k * q + r;
    assert (64 * k) * q == 64 * (k * q);
    DivUnique(c, 64 * k, q, 64 * r + Col(c));
  }

  lemma FoldCellBelow(c: nat, lgK: nat)
    requires c < Pow2(6 + lgK)
    ensures FoldCell(c, lgK) == c
  {
    DivUnique(c, Pow2(6 + lgK), 0, c);
  }

  lemma FoldFits(s: set<nat>, lgK: nat)
    ensures FitsRows(Fold(s, lgK), lgK)
  {
  }

  lemma FoldOfFitting(s: set<nat>, lgK: nat)
    requires FitsRows(s, lgK)
    ensures Fold(s, lgK) == s
  {
    hide FoldCell;
    forall c | c in s ensures FoldCell(c, lgK) == c {
      FoldCellBelow(c, lgK);
    }
  }

  lemma FoldUnion(a: set<nat>, b: set<nat>, lgK: nat)
    ensures Fold(a + b, lgK) == Fold(a, lgK) + Fold(b, lgK)
  {
    hide FoldCell;
  }

  lemma FoldSingle(c: nat, lgK: nat)
    ensures Fold({c}, lgK) == {FoldCell(c, lgK)}
    ensures Fold({}, lgK) == {}
  {
    hide FoldCell;
  }

  lemma FoldCellTwice(c: nat, big: nat, small: nat)
    requires small <= big
    ensures FoldCell(FoldCell(c, big), small) == FoldCell(c, small)
  {
    var p, z := Pow2(6 + small), Pow2(big - small);
    Pow2Add(6 + small, big - small);
    ModOfMod(c, p, z);
  }

  lemma ModOfMod(c: nat, p: nat, z: nat)
    requires p > 0 && z > 0
    ensures p * z > 0 && (c % (p * z)) % p == c % p
  {
    MulMono(p, 1, z);
    var q, r := c / (p * z), c % (p * z);
    assert c == (p * z) * q + r;
    MulDistr(p, z, q, r / p);
    assert r == p * (r / p) + r % p;
    DivUnique(c, p, z * q + r / p, r % p);
  }

  lemma FoldTwice(s: set<nat>, big: nat, small: nat)
    requires small <= big
    ensures Fold(Fold(s, big), small) == Fold(s, small)
  {
    hide FoldCell;
    forall c | c in s ensures FoldCell(FoldCell(c, big), small) == FoldCell(c, small) {
      FoldCellTwice(c, big, small);
    }
    forall x | x in Fold(s, small) ensures x in Fold(Fold(s, big), small) {
      var c :| c in s && x == FoldCell(c, small);
      assert FoldCell(c, big) in Fold(s, big);
    }
  }

  lemma FoldCoupons(s: set<nat>, big: nat, small: nat)
    requires small <= big <= MAX_LG_K && forall c | c in s :: IsCoupon(c, Pow2(big))
    ensures forall c | c in Fold(s, small) :: IsCoupon(c, Pow2(small))
  {
    CellCount(big);
    CellCount(small);
    FoldFits(s, small);
    if small == big {
      FoldOfFitting(s, big);
    } else {
      Pow2Mono(6 + small, 31);
      assert Pow2(31) == 0x8000_0000 by {
        Pow2Values();
        assert Pow2(32) == 2 * Pow2(31);
      }
    }
  }

  // ----- folding loses at most half of the coupons per level (the pigeonhole argument) -----

  function Down(c: nat, n: nat): nat {
    if c >= n then c - n else 0
  }

  ghost function Lower(s: set<nat>, n: nat): set<nat> {
    set c | c in s :: Down(c, n)
  }

  lemma {:induction false} LowerSize(s: set<nat>, n: nat)
    requires forall c | c in s :: c >= n
    ensures |Lower(s, n)| == |s|
  {
    if s == {} {
      assert Lower(s, n) == {};
    } else {
      var c :| c in s;
      LowerSize(s - {c}, n);
      LowerStep(s, c, n);
    }
  }

  lemma LowerStep(s: set<nat>, c: nat, n: nat)
    requires c in s && forall e | e in s :: e >= n
    ensures Lower(s, n) == Lower(s - {c}, n) + {Down(c, n)}
    ensures Down(c, n) !in Lower(s - {c}, n)
  {
    assert s == (s - {c}) + {c};
  }

  lemma HalvingKeepsHalf(s: set<nat>, lgK: nat)
    requires FitsRows(s, lgK + 1)
    ensures 2 * |Fold(s, lgK)| >= |s|
  {
    var n := Pow2(6 + lgK);
    assert Pow2(6 + (lgK + 1)) == 2 * n;
    var lo := set c | c in s && c < n;
    var hi := set c | c in s && c >= n;
    assert s == lo + hi;
    LowerSize(hi, n);
    assert lo <= Fold(s, lgK) by {
      forall c | c in lo ensures c in Fold(s, lgK) {
        FoldCellBelow(c, lgK);
      }
    }
    assert Lower(hi, n) <= Fold(s, lgK) by {
      forall c | c in hi ensures FoldCell(c, lgK) == Down(c, n) {
        DivUnique(c, n, 1, c - n);
      }
    }
    SubsetSize(lo, Fold(s, lgK));
    SubsetSize(Lower(hi, n), Fold(s, lgK));
  }

  /** A set that is past SPARSE stays past SPARSE however far it is downsampled. */
  lemma {:induction false} FoldStaysDense(s: set<nat>, big: nat, small: nat)
    requires small <= big && FitsRows(s, big) && 32 * |s| >= 3 * Pow2(big)
    ensures 32 * |Fold(s, small)| >= 3 * Pow2(small)
    decreases big
  {
    if small == big {
      FoldOfFitting(s, big);
    } else {
      HalvingKeepsHalf(s, big - 1);
      FoldFits(s, big - 1);
      FoldStaysDense(Fold(s, big - 1), big - 1, small);
      FoldTwice(s, big - 1, small);
    }
  }

  lemma {:induction false} FoldShrinks(s: set<nat>, lgK: nat)
    ensures |Fold(s, lgK)| <= |s|
  {
    hide FoldCell;
    if s == {} {
      FoldSingle(0, lgK);
    } else {
      var c :| c in s;
      FoldShrinks(s - {c}, lgK);
      FoldUnion(s - {c}, {c}, lgK);
      FoldSingle(c, lgK);
      assert s == (s - {c}) + {c};
    }
  }

  // ----- the cells of a matrix, folded row by row -----

  ghost function MatrixCells(rows: seq<nat>): set<nat> {
    set c: nat | c < 64 * |rows| && Bit(rows[Row(c)], Col(c))
  }

  ghost predicate Are64BitRows(rows: seq<nat>) {
    forall r | 0 <= r < |rows| :: Is64Bit(rows[r])
  }

  lemma CellsOfMatrix(m: seq<nat>, s: set<nat>)
    requires MatrixOf(m, s)
    ensures MatrixCells(m) == s && Are64BitRows(m)
  {
    forall c: nat | c < 64 * |m| ensures Bit(m[Row(c)], Col(c)) <==> c in s {
      assert c == Cell(Row(c), Col(c));
    }
  }

  lemma NextRowCells(rows: seq<nat>, i: nat)
    requires i < |rows|
    ensures MatrixCells(rows[..i + 1]) == MatrixCells(rows[..i]) + RowCells(i, rows[i])
  {
    forall c: nat ensures c in MatrixCells(rows[..i + 1]) <==> c in MatrixCells(rows[..i]) + RowCells(i, rows[i]) {
      if c >= 64 * i && c < 64 * (i + 1) {
        assert c == Cell(i, Col(c));
      }
      if c in RowCells(i, rows[i]) {
        var col: nat :| col < 64 && Bit(rows[i], col) && c == Cell(i, col);
        CellParts(i, col);
      }
    }
  }

  lemma FoldRowCells(row: nat, pattern: nat, lgK: nat)
    ensures Fold(RowCells(row, pattern), lgK) == RowCells(row % Pow2(lgK), pattern)
  {
    var row' := row % Pow2(lgK);
    hide FoldCell, Bit;
    forall col: nat | col < 64 ensures FoldCell(Cell(row, col), lgK) == Cell(row', col) {
      FoldCellParts(Cell(row, col), lgK);
      CellParts(row, col);
    }
    forall c | c in RowCells(row', pattern) ensures c in Fold(RowCells(row, pattern), lgK) {
      var col: nat :| col < 64 && Bit(pattern, col) && c == Cell(row', col);
      assert Cell(row, col) in RowCells(row, pattern);
    }
  }

  lemma OrRow(m: seq<nat>, s: set<nat>, row: nat, pattern: nat)
    requires MatrixOf(m, s) && row < |m| && Is64Bit(pattern)
    ensures MatrixOf(m[row := Bitwise(Or, m[row], pattern)], s + RowCells(row, pattern))
  {
    var m' := m[row := Bitwise(Or, m[row], pattern)];
    forall r: nat, col: nat | r < |m|
      ensures Bit(m'[r], col) <==> (col < 64 && Cell(r, col) in s + RowCells(row, pattern))
    {
      if r == row {
        BitwiseBit(Or, m[row], pattern, col);
      }
      if col < 64 {
        CellParts(r, col);
        RowCellsAt(row, pattern, r, col);
      }
    }
    forall c | c in RowCells(row, pattern) ensures Row(c) == row {
      var col: nat :| col < 64 && Bit(pattern, col) && c == Cell(row, col);
      CellParts(row, col);
    }
  }

  lemma RowCellsAt(row: nat, pattern: nat, r: nat, col: nat)
    requires col < 64
    ensures Cell(r, col) in RowCells(row, pattern) <==> r == row && Bit(pattern, col)
  {
    CellParts(r, col);
    if Cell(r, col) in RowCells(row, pattern) {
      var c: nat :| c < 64 && Bit(pattern, c) && Cell(r, col) == Cell(row, c);
      CellParts(row, c);
    }
  }

  // ----- counting a matrix counts its coupons -----

  lemma {:induction false} RowCellsSize(row: nat, pattern: nat)
    requires Is64Bit(pattern)
    ensures |RowCells(row, pattern)| == PopCount(pattern)
    decreases pattern
  {
    if pattern == 0 {
      NoCells(row);
    } else {
      DrainBit(row, pattern);
      var col := TrailingZeros(pattern);
      EraseBit(pattern, col);
      PopCountErased(pattern, col);
      RowCellsSize(row, pattern - Pow2(col));
    }
  }

  lemma {:induction false} PopCountErased(w: nat, i: nat)
    requires Bit(w, i) && w >= Pow2(i)
    ensures PopCount(w - Pow2(i)) == PopCount(w) - 1
    decreases i
  {
    if i > 0 {
      PopCountErased(w / 2, i - 1);
      HalfErased(w, Pow2(i - 1));
      PopCountHalf(w - Pow2(i));
      PopCountHalf(w);
    }
  }

  lemma HalfErased(w: nat, p: nat)
    requires w >= 2 * p
    ensures (w - 2 * p) / 2 == w / 2 - p && (w - 2 * p) % 2 == w % 2
  {
  }

  lemma {:induction false} MatrixCellsSize(rows: seq<nat>)
    requires Are64BitRows(rows)
    ensures |MatrixCells(rows)| == PopCountOf(rows)
  {
    if rows == [] {
      assert MatrixCells(rows) == {};
    } else {
      var i := |rows| - 1;
      MatrixCellsSize(rows[..i]);
      NextRowCells(rows, i);
      assert rows[..i + 1] == rows;
      RowCellsSize(i, rows[i]);
      RowsApart(rows[..i], i, rows[i]);
    }
  }

  lemma RowsApart(rows: seq<nat>, i: nat, pattern: nat)
    requires |rows| == i
    ensures MatrixCells(rows) !! RowCells(i, pattern)
  {
  }

  lemma {:induction false} WordFits(w: nat, n: nat)
    requires forall i: nat :: Bit(w, i) ==> i < n
    ensures w < Pow2(n)
    decreases n
  {
    if n == 0 {
      forall i: nat ensures Bit(w, i) == Bit(0, i) {
        ZeroBits(i);
      }
      SameBits(w, 0);
    } else {
      forall i: nat ensures Bit(w / 2, i) ==> i < n - 1 {
        assert Bit(w, i + 1) == Bit(w / 2, i);
      }
      WordFits(w / 2, n - 1);
    }
  }
}
