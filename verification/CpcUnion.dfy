/** The union of CPC sketches: a sparse accumulator sketch, or a bit matrix once that has outgrown
    SPARSE, with a size that shrinks to the smallest input's (cpc/include/cpc_union_impl.hpp). */
module CpcUnions {
  import opened Words
  import opened Strides
  import opened U32Tables
  import opened CpcSketches
  import opened CpcRuns
  import opened CpcUtil
  import opened Folding

  // ----- the specification -----

  function Min(a: nat, b: nat): nat {
    if a <= b then a else b
  }

  /** A union's size and coupons after one input: empty inputs change nothing. */
  ghost function JoinedLgK(lgK: nat, srcLgK: nat, src: set<nat>): nat {
    if src == {} then lgK else Min(lgK, srcLgK)
  }

  ghost function Joined(lgK: nat, content: set<nat>, srcLgK: nat, src: set<nat>): set<nat> {
    var l := JoinedLgK(lgK, srcLgK, src);
    Fold(content, l) + Fold(src, l)
  }

  ghost predicate IsSparse(s: set<nat>, lgK: nat) {
    32 * |s| < 3 * Pow2(lgK)
  }

  /** Wherever the coupons stand in the tables that are walked, the accumulator can take them in. */
  ghost predicate RoomToJoin(lgK: nat, content: set<nat>, srcLgK: nat, src: set<nat>) {
    var l := JoinedLgK(lgK, srcLgK, src);
    IsSparse(content, lgK) && src != {} ==>
      && (l < lgK && content != {} ==> Collectable({}, Fold(content, l), l))
      && (IsSparse(src, srcLgK) && IsSparse(Fold(content, l), l) && !(content == {} && l == srcLgK) ==>
            Collectable(Fold(content, l), Fold(src, l), l))
  }

  // ----- the walk over a source table -----

  const GOLDEN: real := 0.6180339887498949025

  /** The golden-ratio stride, forced to be odd. The exceptions on its range cannot be thrown. */
  function GoldenStride(numSlots: nat): (stride: nat)
    requires numSlots >= 4
    ensures stride % 2 == 1 && 3 <= stride < numSlots
    ensures GOLDEN * numSlots as real - 1.0 < stride as real <= GOLDEN * numSlots as real + 1.0
  {
    var s := (GOLDEN * numSlots as real).Floor;
    assert 2 <= s && s + 1 < numSlots;
    if s % 2 == 0 then s + 1 else s
  }

  /** The items in the slots of a set. */
  ghost function ItemsAt(slots: seq<nat>, at: set<nat>): set<nat> {
    set j | j in at && j < |slots| && slots[j] != EMPTY :: slots[j]
  }

  lemma ItemsAtAll(slots: seq<nat>, items: set<nat>, at: set<nat>)
    requires Holds(slots, items) && forall j: nat :: j in at <==> j < |slots|
    ensures ItemsAt(slots, at) == items
  {
    forall x | x in items ensures x in ItemsAt(slots, at) {
      var j :| 0 <= j < |slots| && slots[j] == x;
      assert j in at;
    }
  }

  lemma ItemsAtNext(slots: seq<nat>, at: set<nat>, j: nat)
    requires j < |slots|
    ensures ItemsAt(slots, at + {j}) == ItemsAt(slots, at) + (if slots[j] == EMPTY then {} else {slots[j]})
  {
  }

  lemma WalkStep(slots: seq<nat>, at: set<nat>, j: nat, lgK: nat)
    requires j < |slots|
    ensures slots[j] == EMPTY ==> Fold(ItemsAt(slots, at + {j}), lgK) == Fold(ItemsAt(slots, at), lgK)
    ensures slots[j] != EMPTY ==>
              Fold(ItemsAt(slots, at + {j}), lgK) == Fold(ItemsAt(slots, at), lgK) + {FoldCell(slots[j], lgK)}
  {
    hide Fold;
    ItemsAtNext(slots, at, j);
    if slots[j] == EMPTY {
      assert ItemsAt(slots, at + {j}) == ItemsAt(slots, at);
    } else {
      FoldUnion(ItemsAt(slots, at), {slots[j]}, lgK);
      FoldSingle(slots[j], lgK);
    }
  }

  /** What the first steps of the walk feed to the accumulator, in order: the items that they meet,
      downsampled to its size. */
  ghost function Walk(slots: seq<nat>, lgK: nat, steps: nat): seq<nat>
    requires |slots| >= 4
  {
    if steps == 0 then []
    else
      var j := Orbit(0, GoldenStride(|slots|), |slots|, steps - 1);
      Walk(slots, lgK, steps - 1) + (if slots[j] == EMPTY then [] else [FoldCell(slots[j], lgK)])
  }

  /** Each of them in turn finds room in a sketch of the coupons before. */
  ghost predicate WalkHasRoom(slots: seq<nat>, before: set<nat>, lgK: nat) {
    |slots| >= 4 && RunHasRoom(before, Walk(slots, lgK, |slots|), lgK)
  }

  lemma {:induction false} WalkPrefix(slots: seq<nat>, lgK: nat, steps: nat, n: nat)
    requires |slots| >= 4 && steps <= n
    ensures |Walk(slots, lgK, steps)| <= |Walk(slots, lgK, n)|
    ensures Walk(slots, lgK, n)[..|Walk(slots, lgK, steps)|] == Walk(slots, lgK, steps)
    decreases n
  {
    if steps < n {
      WalkPrefix(slots, lgK, steps, n - 1);
    }
  }

  lemma WalkRoom(slots: seq<nat>, before: set<nat>, lgK: nat, i: nat)
    requires WalkHasRoom(slots, before, lgK) && i < |slots|
    ensures var j := Orbit(0, GoldenStride(|slots|), |slots|, i);
            slots[j] != EMPTY ==>
              StepHasRoom(before + Elements(Walk(slots, lgK, i)), FoldCell(slots[j], lgK), lgK)
  {
    hide StepHasRoom, FoldCell, Orbit, GoldenStride, Elements;
    var all, part := Walk(slots, lgK, |slots|), Walk(slots, lgK, i);
    var j := Orbit(0, GoldenStride(|slots|), |slots|, i);
    if slots[j] != EMPTY {
      assert Walk(slots, lgK, i + 1) == part + [FoldCell(slots[j], lgK)];
      WalkPrefix(slots, lgK, i, |slots|);
      WalkPrefix(slots, lgK, i + 1, |slots|);
      hide Walk;
      assert all[|part|] == all[..|part| + 1][|part|];
      assert StepHasRoom(before + Elements(all[..|part|]), all[|part|], lgK);
    }
  }

  /** The walk so far has fed exactly the items in the slots visited so far. */
  lemma {:induction false} WalkFeeds(slots: seq<nat>, lgK: nat, steps: nat)
    requires |slots| >= 4
    ensures Elements(Walk(slots, lgK, steps))
            == Fold(ItemsAt(slots, Visited(0, GoldenStride(|slots|), |slots|, steps)), lgK)
  {
    hide FoldCell, Orbit, GoldenStride;
    var stride := GoldenStride(|slots|);
    if steps == 0 {
      assert ItemsAt(slots, Visited(0, stride, |slots|, 0)) == {};
    } else {
      WalkFeeds(slots, lgK, steps - 1);
      VisitedNext(0, stride, |slots|, steps - 1);
      hide Visited, ItemsAt, Fold;
      var j := Orbit(0, stride, |slots|, steps - 1);
      WalkStep(slots, Visited(0, stride, |slots|, steps - 1), j, lgK);
      if slots[j] != EMPTY {
        ElementsNext(Walk(slots, lgK, steps - 1), FoldCell(slots[j], lgK));
      }
    }
  }

  /** The whole walk feeds all items. */
  lemma WalkFeedsAll(slots: seq<nat>, lgSize: nat, items: set<nat>, lgK: nat)
    requires lgSize >= 2 && |slots| == Pow2(lgSize) && Holds(slots, items)
    ensures |slots| >= 4 && Elements(Walk(slots, lgK, |slots|)) == Fold(items, lgK)
  {
    AtLeastFour(lgSize);
    hide Pow2, Holds, Fold, ItemsAt, Visited, Walk, GoldenStride;
    WalkFeeds(slots, lgK, |slots|);
    var stride: nat := GoldenStride(|slots|);
    AllVisited(0, stride, lgSize);
    ItemsAtAll(slots, items, Visited(0, stride, |slots|, |slots|));
  }

  /** Coupons that can be collected in any order can be walked through, wherever they stand. */
  lemma CollectableWalk(slots: seq<nat>, lgSize: nat, items: set<nat>, before: set<nat>, lgK: nat)
    requires lgSize >= 2 && |slots| == Pow2(lgSize) && Holds(slots, items)
    requires Collectable(before, Fold(items, lgK), lgK)
    ensures WalkHasRoom(slots, before, lgK)
  {
    hide Pow2, Holds, Fold, Walk, Collectable, RunHasRoom;
    WalkFeedsAll(slots, lgSize, items, lgK);
    CollectableRun(before, Fold(items, lgK), Walk(slots, lgK, |slots|), lgK);
  }

  /** Feeds every item of a source table to the accumulator, downsampled to the accumulator's size. */
  method WalkTableUpdatingSketch(slots: seq<nat>, accumulator: CpcSketch, ghost items: set<nat>, ghost lgSize: nat)
    requires accumulator.Valid() && lgSize >= 2 && |slots| == Pow2(lgSize) && Holds(slots, items)
    requires forall c | c in Fold(items, accumulator.lgK) :: IsCoupon(c, Pow2(accumulator.lgK))
    requires WalkHasRoom(slots, accumulator.coupons, accumulator.lgK)
    modifies accumulator, accumulator.table
    ensures accumulator.Valid() && accumulator.lgK == old(accumulator.lgK)
    ensures accumulator.table == old(accumulator.table) || fresh(accumulator.table)
    ensures accumulator.coupons == old(accumulator.coupons) + Fold(items, old(accumulator.lgK))
  {
    hide Pow2, Holds, Fold, IsCoupon, Orbit, Walk, WalkHasRoom, CpcSketch.Valid, GoldenStride, Step, Elements, FoldCell;
    WalkFeedsAll(slots, lgSize, items, accumulator.lgK);
    var numSlots := |slots|;
    ghost var lgK, before := accumulator.lgK, accumulator.coupons;
    var stride: nat, j: nat := GoldenStride(numSlots), 0;
    WalkStarts(slots, stride, lgK);
    for i := 0 to numSlots
      invariant accumulator.Valid() && accumulator.lgK == lgK
      invariant accumulator.table == old(accumulator.table) || fresh(accumulator.table)
      invariant j < numSlots && j == Orbit(0, stride, numSlots, i)
      invariant accumulator.coupons == before + Elements(Walk(slots, lgK, i))
    {
      hide Pow2, Holds, Fold, IsCoupon, Orbit, Walk, WalkHasRoom, CpcSketch.Valid, GoldenStride, Step, FoldCell,
           StepHasRoom, Elements;
      OrbitNext(0, stride, numSlots, i);
      WalkRoom(slots, before, lgK, i);
      WalkNext(slots, lgK, i);
      WalkSlot(slots, j, accumulator, items);
      j := Step(j, stride, numSlots);
    }
  }

  lemma WalkNext(slots: seq<nat>, lgK: nat, i: nat)
    requires |slots| >= 4
    ensures var j := Orbit(0, GoldenStride(|slots|), |slots|, i);
            Elements(Walk(slots, lgK, i + 1))
            == Elements(Walk(slots, lgK, i)) + (if slots[j] == EMPTY then {} else {FoldCell(slots[j], lgK)})
  {
    hide Orbit, GoldenStride, FoldCell;
    var j := Orbit(0, GoldenStride(|slots|), |slots|, i);
    if slots[j] != EMPTY {
      ElementsNext(Walk(slots, lgK, i), FoldCell(slots[j], lgK));
    }
  }

  lemma AtLeastFour(lgSize: nat)
    requires lgSize >= 2
    ensures Pow2(lgSize) >= 4
  {
    Pow2Mono(2, lgSize);
    assert Pow2(2) == 4;
  }

  lemma WalkStarts(slots: seq<nat>, stride: nat, lgK: nat)
    requires |slots| >= 4 && stride == GoldenStride(|slots|)
    ensures stride % 2 == 1 && stride < |slots|
    ensures Orbit(0, stride, |slots|, 0) == 0
    ensures Elements(Walk(slots, lgK, 0)) == {}
  {
  }

  method WalkSlot(slots: seq<nat>, j: nat, accumulator: CpcSketch, ghost items: set<nat>)
    requires accumulator.Valid() && j < |slots| && Holds(slots, items)
    requires forall c | c in Fold(items, accumulator.lgK) :: IsCoupon(c, Pow2(accumulator.lgK))
    requires slots[j] != EMPTY ==> StepHasRoom(accumulator.coupons, FoldCell(slots[j], accumulator.lgK), accumulator.lgK)
    modifies accumulator, accumulator.table
    ensures accumulator.Valid() && accumulator.lgK == old(accumulator.lgK)
    ensures accumulator.table == old(accumulator.table) || fresh(accumulator.table)
    ensures slots[j] == EMPTY ==> accumulator.coupons == old(accumulator.coupons)
    ensures slots[j] != EMPTY ==> accumulator.coupons == old(accumulator.coupons) + {FoldCell(slots[j], accumulator.lgK)}
  {
    hide Pow2, Holds, Fold, StepHasRoom, IsCoupon, CpcSketch.Valid, FoldCell;
    var rowCol := slots[j];
    if rowCol != EMPTY {
      FoldedItem(slots, items, rowCol, j, accumulator.lgK);
      CollectOne(accumulator, FoldCell(rowCol, accumulator.lgK));
    }
  }

  lemma OrbitNext(start: nat, stride: nat, n: nat, t: nat)
    requires start < n && stride < n
    ensures 0 <= Orbit(start, stride, n, t) < n
    ensures Orbit(start, stride, n, t + 1) == Step(Orbit(start, stride, n, t), stride, n)
    ensures Orbit(start, stride, n, 0) == start
  {
  }

  lemma FoldedItem(slots: seq<nat>, items: set<nat>, c: nat, j: nat, lgK: nat)
    requires Holds(slots, items) && j < |slots| && slots[j] == c != EMPTY
    ensures FoldCell(c, lgK) in Fold(items, lgK)
  {
    hide FoldCell;
  }

  // ----- the union -----

  /** The coupons of a window at offset w. */
  function Shifted(window: seq<nat>, w: nat): seq<nat> {
    seq(|window|, i requires 0 <= i < |window| => Shl(window[i], w))
  }

  lemma WindowAndTable(s: set<nat>, lgK: nat, window: seq<nat>, items: set<nat>, fic: nat)
    requires Describes(s, lgK, 0, window, items, fic) && window != []
    ensures s == MatrixCells(Shifted(window, 0)) + items
    ensures |window| == Pow2(lgK) && Are64BitRows(Shifted(window, 0))
  {
    hide Pow2;
    forall i | 0 <= i < |window| ensures Shifted(window, 0)[i] == window[i] && Is64Bit(window[i]) {
      forall b: nat ensures Bit(window[i], b) ==> b < 64 {
        ByteBits(window[i], b);
      }
    }
    forall c: nat ensures c in s <==> c in MatrixCells(Shifted(window, 0)) + items {
      if c in items && Row(c) < |window| {
        ByteBits(window[Row(c)], Col(c));
      }
    }
  }

  class CpcUnion {
    var lgK: nat
    var accumulator: CpcSketch?
    var bitMatrix: seq<nat>
    ghost var content: set<nat>

    ghost function Repr(): set<object>
      reads this, accumulator
    {
      if accumulator == null then {this} else (var a: CpcSketch := accumulator; {this, a, a.table})
    }

    /** The matrix holds the content; its rows from Pow2(lgK) on, if it has any, are zero. */
    ghost predicate MatrixStores()
      reads this
    {
      && MIN_LG_K <= lgK <= MAX_LG_K
      && (forall c | c in content :: IsCoupon(c, Pow2(lgK)))
      && accumulator == null && |bitMatrix| >= Pow2(lgK) && MatrixOf(bitMatrix, content)
    }

    ghost predicate AccumulatorStores()
      reads this, accumulator, if accumulator != null then {accumulator.table} else {}
    {
      && MIN_LG_K <= lgK <= MAX_LG_K
      && (forall c | c in content :: IsCoupon(c, Pow2(lgK)))
      && bitMatrix == [] && accumulator != null && accumulator.Valid() && accumulator.coupons == content
      && lgK <= accumulator.lgK && (lgK < accumulator.lgK ==> content == {})
    }

    ghost predicate Valid()
      reads this, accumulator, if accumulator != null then {accumulator.table} else {}
    {
      if accumulator == null then
        MatrixStores() && !IsSparse(content, lgK)
      else
        AccumulatorStores() && IsSparse(content, lgK) && accumulator.lgK == lgK
    }

    constructor (lgK: nat)
      requires MIN_LG_K <= lgK <= MAX_LG_K
      ensures Valid() && fresh(Repr()) && this.lgK == lgK && content == {}
    {
      this.lgK := lgK;
      bitMatrix := [];
      content := {};
      accumulator := new CpcSketch(lgK);
      new;
      assert Pow2(lgK) >= 1;
    }

    // ----- or-ing into the matrix -----

    method OrTableIntoMatrix(slots: seq<nat>, ghost items: set<nat>)
      requires accumulator == null && |bitMatrix| >= Pow2(lgK) && MatrixOf(bitMatrix, content)
      requires Holds(slots, items) && Distinct(slots)
      modifies `bitMatrix, `content
      ensures |bitMatrix| == |old(bitMatrix)| && MatrixOf(bitMatrix, content)
      ensures content == old(content) + Fold(items, lgK)
    {
      hide Holds, Distinct, MatrixOf, Fold, FoldCell, Pow2;
      ghost var seen := {};
      HoldsNothing(slots);
      FoldSingle(0, lgK);
      for i := 0 to |slots|
        invariant Holds(slots[..i], seen) && seen <= items
        invariant |bitMatrix| == |old(bitMatrix)| && MatrixOf(bitMatrix, content)
        invariant content == old(content) + Fold(seen, lgK)
      {
        hide Holds, Distinct, MatrixOf, Fold, FoldCell, Pow2, Row, Col;
        var rowCol := slots[i];
        HoldsNext(slots, i, seen, items);
        if rowCol != EMPTY {
          var col, row := Col(rowCol), Row(rowCol);
          OrCell(bitMatrix, content, rowCol, lgK);
          FoldUnion(seen, {rowCol}, lgK);
          FoldSingle(rowCol, lgK);
          bitMatrix := bitMatrix[row % Pow2(lgK) := Bitwise(Or, bitMatrix[row % Pow2(lgK)], Pow2(col))];
          content := content + {FoldCell(rowCol, lgK)};
          seen := seen + {rowCol};
        }
      }
      HoldsUnique(slots, seen, items);
    }

    method OrWindowIntoMatrix(window: seq<nat>, offset: nat, srcLgK: nat)
      requires accumulator == null && |bitMatrix| >= Pow2(lgK) && MatrixOf(bitMatrix, content)
      requires |window| == Pow2(srcLgK) && Are64BitRows(Shifted(window, offset))
      modifies `bitMatrix, `content
      ensures |bitMatrix| == |old(bitMatrix)| && MatrixOf(bitMatrix, content)
      ensures content == old(content) + Fold(MatrixCells(Shifted(window, offset)), lgK)
    {
      ghost var rows := Shifted(window, offset);
      hide MatrixOf, Fold, FoldCell, Pow2, MatrixCells, RowCells, Is64Bit;
      NoRows(rows, lgK);
      for srcRow := 0 to |window|
        invariant |bitMatrix| == |old(bitMatrix)| && MatrixOf(bitMatrix, content)
        invariant content == old(content) + Fold(MatrixCells(rows[..srcRow]), lgK)
      {
        hide MatrixOf, Fold, FoldCell, Pow2, MatrixCells, RowCells, Is64Bit;
        var value := Shl(window[srcRow], offset);
        OrFoldedRow(bitMatrix, content, rows, srcRow, lgK);
        var row := srcRow % Pow2(lgK);
        bitMatrix := bitMatrix[row := Bitwise(Or, bitMatrix[row], value)];
        content := content + RowCells(row, value);
      }
      assert rows[..|window|] == rows;
    }

    method OrMatrixIntoMatrix(srcMatrix: seq<nat>, srcLgK: nat)
      requires accumulator == null && |bitMatrix| >= Pow2(lgK) && MatrixOf(bitMatrix, content)
      requires |srcMatrix| >= Pow2(srcLgK) && Are64BitRows(srcMatrix)
      modifies `bitMatrix, `content
      ensures |bitMatrix| == |old(bitMatrix)| && MatrixOf(bitMatrix, content)
      ensures content == old(content) + Fold(MatrixCells(srcMatrix[..Pow2(srcLgK)]), lgK)
    {
      hide MatrixOf, Fold, FoldCell, Pow2, MatrixCells, RowCells, Is64Bit;
      NoRows(srcMatrix, lgK);
      for srcRow := 0 to Pow2(srcLgK)
        invariant |bitMatrix| == |old(bitMatrix)| && MatrixOf(bitMatrix, content)
        invariant content == old(content) + Fold(MatrixCells(srcMatrix[..srcRow]), lgK)
      {
        hide MatrixOf, Fold, FoldCell, Pow2, MatrixCells, RowCells, Is64Bit;
        OrFoldedRow(bitMatrix, content, srcMatrix, srcRow, lgK);
        var row := srcRow % Pow2(lgK);
        bitMatrix := bitMatrix[row := Bitwise(Or, bitMatrix[row], srcMatrix[srcRow])];
        content := content + RowCells(row, srcMatrix[srcRow]);
      }
    }

    // ----- one input -----

    /** The walks that this input takes, if any, find room at every step. */
    ghost predicate HasRoom(sketch: CpcSketch)
      reads this, accumulator, if accumulator != null then {accumulator.table} else {}, sketch, sketch.table
    {
      var l := JoinedLgK(lgK, sketch.lgK, sketch.coupons);
      accumulator != null && sketch.coupons != {} ==>
        && (l < lgK && content != {} ==> WalkHasRoom(accumulator.table.slots, {}, l))
        && (IsSparse(sketch.coupons, sketch.lgK) && IsSparse(Fold(content, l), l) && !(content == {} && l == sketch.lgK) ==>
              WalkHasRoom(sketch.table.slots, Fold(content, l), l))
    }

    lemma RoomSuffices(sketch: CpcSketch)
      requires Valid() && sketch.Valid() && RoomToJoin(lgK, content, sketch.lgK, sketch.coupons)
      ensures HasRoom(sketch)
    {
      hide Pow2, MatrixOf, IsCoupon, Fold, Collectable, WalkHasRoom, CpcSketch.Valid, IsSparse, Holds, Distinct;
      var l := JoinedLgK(lgK, sketch.lgK, sketch.coupons);
      if accumulator != null && l < lgK && sketch.coupons != {} && content != {} {
        SparseHasNoWindow(accumulator);
        SparseItems(accumulator);
        CollectableWalk(accumulator.table.slots, accumulator.table.lgSize, accumulator.table.items, {}, l);
      }
      if accumulator != null && sketch.coupons != {} && IsSparse(sketch.coupons, sketch.lgK)
          && IsSparse(Fold(content, l), l) && !(content == {} && l == sketch.lgK) {
        SparseHasNoWindow(sketch);
        SparseItems(sketch);
        CollectableWalk(sketch.table.slots, sketch.table.lgSize, sketch.table.items, Fold(content, l), l);
      }
    }

    method InternalUpdate(sketch: CpcSketch)
      requires Valid() && sketch.Valid() && {sketch, sketch.table} !! Repr()
      requires HasRoom(sketch)
      modifies Repr()
      ensures Valid() && fresh(Repr() - old(Repr()))
      ensures lgK == JoinedLgK(old(lgK), sketch.lgK, sketch.coupons)
      ensures content == Joined(old(lgK), old(content), sketch.lgK, sketch.coupons)
    {
      hide Pow2, MatrixOf, IsCoupon, Fold, FoldCell, WalkHasRoom, CpcSketch.Valid, IsSparse;
      ghost var s, t, l := content, sketch.coupons, JoinedLgK(lgK, sketch.lgK, sketch.coupons);
      JoinFacts(lgK, s, sketch);
      var srcFlavor := DetermineFlavor(sketch.lgK, sketch.numCoupons);
      if srcFlavor == EmptyFlavor {
        return;
      }
      if sketch.lgK < lgK {
        ReduceK(sketch.lgK);
      }
      assert lgK == l && content == Fold(s, l);
      if srcFlavor == Sparse && accumulator != null { // Case A
        JoinSparse(sketch);
      } else if srcFlavor == Sparse { // Case B
        SparseHasNoWindow(sketch);
        SparseItems(sketch);
        SourceFolds(sketch, lgK);
        OrTableIntoMatrix(sketch.table.slots, sketch.table.items);
        StillDense(Fold(s, l), content, lgK);
      } else {
        // only a matrix can take in a windowed source
        if accumulator != null {
          SwitchToBitMatrix();
        }
        JoinDense(sketch, srcFlavor);
      }
    }

    /** Case A: a sparse source, walked into the sparse accumulator or copied over an empty one. */
    method JoinSparse(sketch: CpcSketch)
      requires AccumulatorStores() && IsSparse(content, lgK)
      requires sketch.Valid() && IsSparse(sketch.coupons, sketch.lgK) && lgK <= sketch.lgK
      requires {sketch, sketch.table} !! Repr() && (lgK < accumulator.lgK ==> lgK == sketch.lgK)
      requires (content == {} && lgK == sketch.lgK) || WalkHasRoom(sketch.table.slots, content, lgK)
      modifies Repr()
      ensures Valid() && fresh(Repr() - old(Repr())) && lgK == old(lgK)
      ensures content == old(content) + Fold(sketch.coupons, lgK)
    {
      hide Pow2, MatrixOf, IsCoupon, Fold, FoldCell, WalkHasRoom, CpcSketch.Valid, IsSparse;
      SparseHasNoWindow(sketch);
      SparseItems(sketch);
      ghost var t := Fold(sketch.coupons, lgK);
      SourceFolds(sketch, lgK);
      EmptyByCount(accumulator);
      // nothing to add to: a copy will do
      if accumulator.numCoupons == 0 && lgK == sketch.lgK {
        accumulator := new CpcSketch.Copy(sketch);
        content := sketch.coupons;
        return;
      }
      WalkTableUpdatingSketch(sketch.table.slots, accumulator, sketch.table.items, sketch.table.lgSize);
      content := content + t;
      SwitchIfDense();
    }

    /** Cases C and D: a source past SPARSE, or-ed into the matrix by window and table, or, when its
        logic is inverted, by way of its full matrix. */
    method JoinDense(sketch: CpcSketch, srcFlavor: Flavor)
      requires MatrixStores() && sketch.Valid() && lgK <= sketch.lgK
      requires srcFlavor == DetermineFlavor(sketch.lgK, sketch.numCoupons) && srcFlavor in {Hybrid, Pinned, Sliding}
      modifies `bitMatrix, `content
      ensures Valid() && content == old(content) + Fold(sketch.coupons, lgK)
    {
      hide Pow2, MatrixOf, IsCoupon, Fold, FoldCell, WalkHasRoom, CpcSketch.Valid, IsSparse;
      ghost var s, t := content, Fold(sketch.coupons, lgK);
      SourceFolds(sketch, lgK);
      if srcFlavor != Sliding { // Case C
        PinnedParts(sketch);
        OrWindowIntoMatrix(sketch.window, sketch.windowOffset, sketch.lgK);
        OrTableIntoMatrix(sketch.table.slots, sketch.table.items);
        FoldUnion(MatrixCells(Shifted(sketch.window, 0)), sketch.table.items, lgK);
        assert content == s + t;
      } else { // Case D
        SlidingHasWindow(sketch);
        var srcMatrix := sketch.BuildBitMatrix();
        CellsOfMatrix(srcMatrix, sketch.coupons);
        assert srcMatrix[..Pow2(sketch.lgK)] == srcMatrix;
        OrMatrixIntoMatrix(srcMatrix, sketch.lgK);
      }
      StillDense(t, content, lgK);
    }

    // ----- the result -----

    /** The matrix has few enough coupons for a window, and few enough surprises around it. */
    ghost predicate Resultable()
      reads this
    {
      8 * |content| < 475 * Pow2(lgK) && TableFits(content, lgK, DetermineCorrectOffset(lgK, |content|))
    }

    /** A sketch of the union's content. */
    method GetResult() returns (result: CpcSketch)
      requires Valid() && (accumulator == null ==> Resultable())
      ensures result.Valid() && fresh(result) && fresh(result.table)
      ensures result.lgK == lgK && result.coupons == content
    {
      hide Pow2, MatrixOf, IsCoupon, Resultable, IsSparse, CpcSketch.Valid;
      if accumulator != null {
        EmptyByCount(accumulator);
        if accumulator.numCoupons == 0 {
          result := new CpcSketch(lgK);
        } else {
          result := new CpcSketch.Copy(accumulator);
        }
      } else {
        result := GetResultFromBitMatrix();
      }
    }

    method GetResultFromBitMatrix() returns (result: CpcSketch)
      requires MatrixStores() && !IsSparse(content, lgK) && Resultable()
      ensures result.Valid() && fresh(result) && fresh(result.table)
      ensures result.lgK == lgK && result.coupons == content
      ensures FirstInteresting(result.table.items, result.windowOffset, result.firstInterestingColumn)
      ensures JustFits(|result.table.items|, result.table.lgSize, if lgK < 6 then 2 else lgK - 4)
    {
      hide Pow2, MatrixOf, IsCoupon, Describes, TableFits, PopCountOf, WindowOf, Covers, DetermineCorrectOffset,
           JustFits, FirstInteresting;
      var k := Pow2(lgK);
      CountableMatrix(bitMatrix, content, lgK);
      var count := CountBitsSetInMatrix(bitMatrix[..k]);
      var numCoupons := count.value;
      // the exception "wrong flavor" cannot be thrown
      assert DetermineFlavor(lgK, numCoupons) in {Hybrid, Pinned, Sliding};
      hide InPlace;
      var offset := DetermineCorrectOffset(lgK, numCoupons);
      OffsetPlaces(lgK, numCoupons);
      var table := new U32Table(if lgK - 4 < 2 then 2 else lgK - 4, 6 + lgK);
      var window, allSurprisesOred := ScanRows(bitMatrix, lgK, offset, table, content);
      var firstInterestingColumn := CountTrailingZeros(allSurprisesOred);
      if firstInterestingColumn > offset {
        firstInterestingColumn := offset; // never right of the window
      }
      Rewindowed(content, lgK, offset, window, bitMatrix, allSurprisesOred, firstInterestingColumn);
      result := new CpcSketch.FromParts(lgK, numCoupons, firstInterestingColumn, table, window, content);
    }

    // ----- shrinking and switching -----

    /** Valid, except that an empty accumulator may still have a larger size. */
    ghost predicate Ready()
      reads this, accumulator, if accumulator != null then {accumulator.table} else {}
    {
      if accumulator == null then MatrixStores() && !IsSparse(content, lgK) else AccumulatorStores() && IsSparse(content, lgK)
    }

    method SwitchToBitMatrix()
      requires AccumulatorStores()
      modifies this
      ensures MatrixStores() && content == old(content) && lgK == old(lgK)
    {
      hide Pow2, MatrixOf, IsCoupon;
      LargerMatrix(lgK, accumulator.lgK);
      bitMatrix := accumulator.BuildBitMatrix();
      accumulator := null;
    }

    method ReduceK(newLgK: nat)
      requires Valid() && MIN_LG_K <= newLgK < lgK
      requires accumulator != null && content != {} ==> WalkHasRoom(accumulator.table.slots, {}, newLgK)
      modifies Repr()
      ensures Ready() && fresh(Repr() - old(Repr()))
      ensures accumulator != null ==> old(accumulator) != null
      ensures lgK == newLgK && content == Fold(old(content), newLgK)
    {
      hide Pow2, MatrixOf, IsCoupon, Fold, FoldCell, WalkHasRoom, IsSparse, CpcSketch.Valid;
      FoldCoupons(content, lgK, newLgK);
      if accumulator == null { // fold the matrix into a smaller one
        ReduceMatrix(newLgK);
      } else { // walk the accumulator into a smaller one
        if accumulator.numCoupons > 0 {
          SparseHasNoWindow(accumulator);
          EmptyByCount(accumulator);
          RebuildAccumulator(newLgK);
        } else {
          EmptyFold(accumulator, content, newLgK);
        }
        content := Fold(content, newLgK);
        lgK := newLgK;
        SwitchIfDense();
      }
    }

    method ReduceMatrix(newLgK: nat)
      requires MatrixStores() && !IsSparse(content, lgK) && MIN_LG_K <= newLgK < lgK
      modifies this
      ensures MatrixStores() && !IsSparse(content, lgK)
      ensures lgK == newLgK && content == Fold(old(content), newLgK)
    {
      hide Pow2, MatrixOf, IsCoupon, Fold, FoldCell;
      var oldMatrix, oldLgK := bitMatrix, lgK;
      ghost var s := content;
      FoldCoupons(s, lgK, newLgK);
      DenseFold(s, lgK, newLgK);
      MatrixPrefix(oldMatrix, s, lgK);
      bitMatrix := seq(Pow2(newLgK), _ => 0);
      lgK := newLgK;
      content := {};
      ZeroMatrix(Pow2(newLgK));
      OrMatrixIntoMatrix(oldMatrix, oldLgK);
    }

    method RebuildAccumulator(newLgK: nat)
      requires accumulator != null && accumulator.Valid() && accumulator.coupons == content && accumulator.window == []
      requires MIN_LG_K <= newLgK <= MAX_LG_K && forall c | c in Fold(content, newLgK) :: IsCoupon(c, Pow2(newLgK))
      requires WalkHasRoom(accumulator.table.slots, {}, newLgK)
      modifies this`accumulator
      ensures accumulator != null && fresh(accumulator) && fresh(accumulator.table) && accumulator.Valid()
      ensures accumulator.lgK == newLgK && accumulator.coupons == Fold(content, newLgK)
    {
      hide Pow2, IsCoupon, Fold, FoldCell, WalkHasRoom, Describes, InPlace;
      var oldAccumulator := accumulator;
      accumulator := new CpcSketch(newLgK);
      SparseItems(oldAccumulator);
      WalkTableUpdatingSketch(oldAccumulator.table.slots, accumulator, oldAccumulator.table.items, oldAccumulator.table.lgSize);
    }

    /** An accumulator with too many coupons to be sparse becomes a bit matrix. */
    method SwitchIfDense()
      requires AccumulatorStores()
      modifies this
      ensures Ready() && lgK == old(lgK) && content == old(content)
      ensures accumulator == old(accumulator) || accumulator == null
    {
      hide Pow2, MatrixOf, IsCoupon, CpcSketch.Valid;
      FlavorOfAccumulator(accumulator, lgK);
      var flavor := DetermineFlavor(accumulator.lgK, accumulator.numCoupons);
      if flavor != EmptyFlavor && flavor != Sparse {
        SwitchToBitMatrix();
      }
    }
  }

  lemma OrCell(m: seq<nat>, s: set<nat>, c: nat, lgK: nat)
    requires MatrixOf(m, s) && |m| >= Pow2(lgK)
    ensures Col(c) < 64 && 0 <= Row(c) % Pow2(lgK) < |m|
    ensures var row := Row(c) % Pow2(lgK);
            MatrixOf(m[row := Bitwise(Or, m[row], Pow2(Col(c)))], s + {FoldCell(c, lgK)})
  {
    var row, col := Row(c) % Pow2(lgK), Col(c);
    FoldCellParts(c, lgK);
    OneBitRow(row, col);
    OrRow(m, s, row, Pow2(col));
    assert FoldCell(c, lgK) == Cell(row, col);
  }

  lemma OneBitRow(row: nat, col: nat)
    requires col < 64
    ensures Is64Bit(Pow2(col)) && RowCells(row, Pow2(col)) == {Cell(row, col)}
  {
    forall i: nat ensures Bit(Pow2(col), i) == (i == col) {
      BitOne(col, i);
    }
  }

  lemma NoRows(rows: seq<nat>, lgK: nat)
    ensures Fold(MatrixCells(rows[..0]), lgK) == {}
  {
  }

  lemma OrFoldedRow(m: seq<nat>, s: set<nat>, rows: seq<nat>, i: nat, lgK: nat)
    requires MatrixOf(m, s) && |m| >= Pow2(lgK) && i < |rows| && Is64Bit(rows[i])
    ensures 0 <= i % Pow2(lgK) < |m|
    ensures MatrixOf(m[i % Pow2(lgK) := Bitwise(Or, m[i % Pow2(lgK)], rows[i])], s + RowCells(i % Pow2(lgK), rows[i]))
    ensures Fold(MatrixCells(rows[..i + 1]), lgK)
            == Fold(MatrixCells(rows[..i]), lgK) + RowCells(i % Pow2(lgK), rows[i])
  {
    hide MatrixOf, Fold, FoldCell, MatrixCells, RowCells, Is64Bit;
    OrRow(m, s, i % Pow2(lgK), rows[i]);
    NextRowCells(rows, i);
    FoldUnion(MatrixCells(rows[..i]), RowCells(i, rows[i]), lgK);
    FoldRowCells(i, rows[i], lgK);
  }

  lemma LargerMatrix(small: nat, big: nat)
    requires small <= big
    ensures Pow2(small) <= Pow2(big)
  {
    Pow2Mono(small, big);
  }

  lemma DenseFold(s: set<nat>, big: nat, small: nat)
    requires small <= big <= MAX_LG_K && !IsSparse(s, big) && forall c | c in s :: IsCoupon(c, Pow2(big))
    ensures !IsSparse(Fold(s, small), small)
  {
    CellCount(big);
    FoldStaysDense(s, big, small);
  }

  /** Cutting off rows that hold no coupon. */
  lemma MatrixPrefix(m: seq<nat>, s: set<nat>, lgK: nat)
    requires MatrixOf(m, s) && |m| >= Pow2(lgK) && forall c | c in s :: IsCoupon(c, Pow2(lgK))
    ensures MatrixCells(m[..Pow2(lgK)]) == s && Are64BitRows(m)
  {
    hide Pow2;
    var k := Pow2(lgK);
    assert MatrixOf(m[..k], s);
    CellsOfMatrix(m[..k], s);
    CellsOfMatrix(m, s);
  }

  lemma ZeroMatrix(k: nat)
    ensures MatrixOf(seq(k, _ => 0), {})
  {
    forall i: nat ensures !Bit(0, i) {
      ZeroBits(i);
    }
  }

  lemma EmptyFold(accumulator: CpcSketch, content: set<nat>, lgK: nat)
    requires accumulator.Valid() && accumulator.coupons == content && accumulator.numCoupons == 0
    ensures content == {} && Fold(content, lgK) == {}
  {
    FoldSingle(0, lgK);
  }

  lemma SparseHasNoWindow(sketch: CpcSketch)
    requires sketch.Valid()
    ensures IsSparse(sketch.coupons, sketch.lgK) <==> sketch.window == []
  {
    hide U32Table.Valid, Describes;
  }

  lemma SparseItems(sketch: CpcSketch)
    requires sketch.Valid() && sketch.window == []
    ensures sketch.table.items == sketch.coupons
    ensures Holds(sketch.table.slots, sketch.table.items) && Distinct(sketch.table.slots)
    ensures 2 <= sketch.table.lgSize && |sketch.table.slots| == Pow2(sketch.table.lgSize)
  {
    hide Pow2, U32Table.Valid, InPlace, Represents;
    SparseTable(sketch.coupons, sketch.lgK, sketch.windowOffset, sketch.table.items, sketch.firstInterestingColumn);
    sketch.table.SlotsHoldItems();
  }

  /** The accumulator's own flavor tells whether the union's content is still sparse. */
  lemma FlavorOfAccumulator(accumulator: CpcSketch, lgK: nat)
    requires accumulator.Valid() && lgK <= accumulator.lgK && (lgK < accumulator.lgK ==> accumulator.coupons == {})
    ensures IsSparse(accumulator.coupons, lgK) <==>
              DetermineFlavor(accumulator.lgK, accumulator.numCoupons) in {EmptyFlavor, Sparse}
  {
    hide U32Table.Valid, Describes, InPlace;
    assert Pow2(lgK) >= 1;
  }

  // ----- facts about one input -----

  lemma JoinFacts(lgK: nat, s: set<nat>, sketch: CpcSketch)
    requires sketch.Valid() && MIN_LG_K <= lgK <= MAX_LG_K && forall c | c in s :: IsCoupon(c, Pow2(lgK))
    ensures Fold(s, lgK) == s && Fold({}, lgK) == {}
    ensures forall l :: Fold({}, l) == {}
    ensures sketch.coupons == {} <==> DetermineFlavor(sketch.lgK, sketch.numCoupons) == EmptyFlavor
    ensures DetermineFlavor(sketch.lgK, sketch.numCoupons) == Sparse ==> IsSparse(sketch.coupons, sketch.lgK)
    ensures MIN_LG_K <= sketch.lgK <= MAX_LG_K
  {
    CellCount(lgK);
    FoldOfFitting(s, lgK);
    FoldSingle(0, lgK);
    hide U32Table.Valid, Describes, InPlace, FoldCell, Pow2;
  }

  lemma SourceFolds(sketch: CpcSketch, lgK: nat)
    requires sketch.Valid() && lgK <= sketch.lgK
    ensures forall c | c in Fold(sketch.coupons, lgK) :: IsCoupon(c, Pow2(lgK))
    ensures lgK == sketch.lgK ==> Fold(sketch.coupons, lgK) == sketch.coupons
    ensures !IsSparse(sketch.coupons, sketch.lgK) ==> !IsSparse(Fold(sketch.coupons, lgK), lgK)
    ensures DetermineFlavor(sketch.lgK, sketch.numCoupons) in {Hybrid, Pinned, Sliding} ==>
              !IsSparse(sketch.coupons, sketch.lgK)
  {
    hide U32Table.Valid, Fold, FoldCell, Represents, InPlace;
    FoldCoupons(sketch.coupons, sketch.lgK, lgK);
    if lgK == sketch.lgK {
      CellCount(lgK);
      FoldOfFitting(sketch.coupons, lgK);
    }
    if !IsSparse(sketch.coupons, sketch.lgK) {
      DenseFold(sketch.coupons, sketch.lgK, lgK);
    }
  }

  lemma EmptyByCount(sketch: CpcSketch)
    requires sketch.Valid()
    ensures sketch.numCoupons == 0 <==> sketch.coupons == {}
  {
    hide U32Table.Valid, Describes, InPlace;
  }

  lemma StillDense(part: set<nat>, s: set<nat>, lgK: nat)
    requires part <= s && !IsSparse(part, lgK)
    ensures !IsSparse(s, lgK)
  {
    SubsetSize(part, s);
  }

  lemma PinnedParts(sketch: CpcSketch)
    requires sketch.Valid() && DetermineFlavor(sketch.lgK, sketch.numCoupons) in {Hybrid, Pinned}
    ensures sketch.windowOffset == 0 && |sketch.window| == Pow2(sketch.lgK)
    ensures Are64BitRows(Shifted(sketch.window, 0))
    ensures sketch.coupons == MatrixCells(Shifted(sketch.window, 0)) + sketch.table.items
    ensures Holds(sketch.table.slots, sketch.table.items) && Distinct(sketch.table.slots)
  {
    StateFollowsCount(sketch);
    hide U32Table.Valid, Describes, InPlace, DetermineFlavor, Pow2;
    WindowAndTable(sketch.coupons, sketch.lgK, sketch.window, sketch.table.items, sketch.firstInterestingColumn);
    sketch.table.SlotsHoldItems();
  }

  lemma SlidingHasWindow(sketch: CpcSketch)
    requires sketch.Valid() && DetermineFlavor(sketch.lgK, sketch.numCoupons) == Sliding
    ensures sketch.numCoupons != 0 && sketch.window != [] && sketch.Stored()
  {
    StateFollowsCount(sketch);
    hide U32Table.Valid, Describes, InPlace, Pow2;
  }

  lemma CountableMatrix(m: seq<nat>, s: set<nat>, lgK: nat)
    requires MIN_LG_K <= lgK <= MAX_LG_K && MatrixOf(m, s) && |m| >= Pow2(lgK)
    requires forall c | c in s :: IsCoupon(c, Pow2(lgK))
    ensures Are64Bit(m[..Pow2(lgK)]) && Pow2(lgK) > 0 && Pow2(lgK) % 8 == 0
    ensures PopCountOf(m[..Pow2(lgK)]) == |s| && EMPTY !in s
  {
    MatrixPrefix(m, s, lgK);
    EightRows(lgK);
    MatrixCellsSize(m[..Pow2(lgK)]);
    assert Pow2(64) == U64_SIZE by {
      Pow2Values();
    }
    hide Pow2, PopCountOf, MatrixCells, Bit;
    forall i | 0 <= i < Pow2(lgK) ensures m[i] < U64_SIZE {
      assert Is64Bit(m[i]);
      WordFits(m[i], 64);
    }
  }

  lemma EightRows(lgK: nat)
    requires 3 <= lgK
    ensures Pow2(lgK) % 8 == 0
  {
    Pow2Add(3, lgK - 3);
    assert Pow2(3) == 8;
    hide Pow2;
  }

  // ----- sequences of inputs -----

  datatype Input = Input(lgK: nat, coupons: set<nat>)

  /** The union's size and content after a sequence of inputs. */
  ghost function JoinAll(start: Input, inputs: seq<Input>): Input {
    if inputs == [] then start
    else
      var before := JoinAll(start, inputs[..|inputs| - 1]);
      var last := inputs[|inputs| - 1];
      Input(JoinedLgK(before.lgK, last.lgK, last.coupons), Joined(before.lgK, before.coupons, last.lgK, last.coupons))
  }

  /** The smallest size among the start and the inputs that are not empty. */
  ghost predicate IsSmallest(l: nat, start: nat, inputs: seq<Input>) {
    && l <= start
    && (forall x | x in inputs && x.coupons != {} :: l <= x.lgK)
    && (l == start || exists x :: x in inputs && x.coupons != {} && l == x.lgK)
  }

  /** All inputs' coupons, downsampled to one size. */
  ghost function FoldAll(inputs: seq<Input>, l: nat): set<nat> {
    set x, c | x in inputs && c in x.coupons :: FoldCell(c, l)
  }

  lemma {:induction false} JoinAllIsFold(start: Input, inputs: seq<Input>)
    requires FitsRows(start.coupons, start.lgK)
    ensures var r := JoinAll(start, inputs);
            && IsSmallest(r.lgK, start.lgK, inputs)
            && r.coupons == Fold(start.coupons, r.lgK) + FoldAll(inputs, r.lgK)
  {
    if inputs == [] {
      FoldOfFitting(start.coupons, start.lgK);
    } else {
      var init, last := inputs[..|inputs| - 1], inputs[|inputs| - 1];
      JoinAllIsFold(start, init);
      assert inputs == init + [last];
      var before, r := JoinAll(start, init), JoinAll(start, inputs);
      assert r == Input(JoinedLgK(before.lgK, last.lgK, last.coupons), Joined(before.lgK, before.coupons, last.lgK, last.coupons));
      hide JoinAll, FoldCell, FitsRows, Fold, FoldAll, IsSmallest;
      SmallestNext(before.lgK, start.lgK, init, last);
      JoinNext(start, init, last, before, r.lgK);
    }
  }

  lemma JoinNext(start: Input, init: seq<Input>, last: Input, before: Input, l: nat)
    requires before.coupons == Fold(start.coupons, before.lgK) + FoldAll(init, before.lgK) && l <= before.lgK
    ensures Fold(before.coupons, l) + Fold(last.coupons, l) == Fold(start.coupons, l) + FoldAll(init + [last], l)
  {
    hide FoldCell, Fold, FoldAll;
    FoldUnion(Fold(start.coupons, before.lgK), FoldAll(init, before.lgK), l);
    FoldTwice(start.coupons, before.lgK, l);
    FoldAllTwice(init, before.lgK, l);
    FoldAllNext(init, last, l);
  }

  lemma SmallestNext(l: nat, start: nat, init: seq<Input>, last: Input)
    requires IsSmallest(l, start, init)
    ensures IsSmallest(JoinedLgK(l, last.lgK, last.coupons), start, init + [last])
    ensures JoinedLgK(l, last.lgK, last.coupons) <= l
  {
    if l != start {
      var x :| x in init && x.coupons != {} && l == x.lgK;
      assert x in init + [last];
    }
    assert last in init + [last];
  }

  lemma FoldAllTwice(inputs: seq<Input>, big: nat, small: nat)
    requires small <= big
    ensures Fold(FoldAll(inputs, big), small) == FoldAll(inputs, small)
  {
    hide FoldCell;
    forall c: nat ensures FoldCell(FoldCell(c, big), small) == FoldCell(c, small) {
      FoldCellTwice(c, big, small);
    }
    forall y | y in FoldAll(inputs, small) ensures y in Fold(FoldAll(inputs, big), small) {
      var x, c :| x in inputs && c in x.coupons && y == FoldCell(c, small);
      assert FoldCell(c, big) in FoldAll(inputs, big);
    }
  }

  lemma FoldAllNext(init: seq<Input>, last: Input, l: nat)
    ensures FoldAll(init + [last], l) == FoldAll(init, l) + Fold(last.coupons, l)
  {
    hide FoldCell;
  }

  /** The result depends on which inputs there were, not on their order or repetition. */
  lemma OrderDoesNotMatter(start: Input, a: seq<Input>, b: seq<Input>)
    requires FitsRows(start.coupons, start.lgK)
    requires forall x :: x in a <==> x in b
    ensures JoinAll(start, a) == JoinAll(start, b)
  {
    JoinAllIsFold(start, a);
    JoinAllIsFold(start, b);
    hide FoldCell, Fold, JoinAll;
    assert JoinAll(start, a).lgK == JoinAll(start, b).lgK;
    assert FoldAll(a, JoinAll(start, a).lgK) == FoldAll(b, JoinAll(start, a).lgK);
  }

  /** Every input in turn finds room. */
  ghost predicate RoomForAll(start: Input, inputs: seq<Input>) {
    forall i | 0 <= i < |inputs| ::
      var before := JoinAll(start, inputs[..i]);
      RoomToJoin(before.lgK, before.coupons, inputs[i].lgK, inputs[i].coupons)
  }

  lemma RoomFor(start: Input, inputs: seq<Input>, i: nat)
    requires RoomForAll(start, inputs) && i < |inputs|
    ensures var before := JoinAll(start, inputs[..i]);
            RoomToJoin(before.lgK, before.coupons, inputs[i].lgK, inputs[i].coupons)
  {
    hide RoomToJoin, JoinAll;
  }

  ghost predicate Matches(sketch: CpcSketch, input: Input)
    reads sketch, sketch.table
  {
    sketch.Valid() && sketch.lgK == input.lgK && sketch.coupons == input.coupons
  }

  /** After a sequence of inputs, one more that finds room leaves the join of them all. */
  method UpdateNext(union: CpcUnion, sketch: CpcSketch, ghost start: Input, ghost inputs: seq<Input>, ghost input: Input)
    requires union.Valid() && Matches(sketch, input) && {sketch, sketch.table} !! union.Repr()
    requires union.HasRoom(sketch)
    requires Input(union.lgK, union.content) == JoinAll(start, inputs)
    modifies union.Repr()
    ensures union.Valid() && fresh(union.Repr() - old(union.Repr()))
    ensures Input(union.lgK, union.content) == JoinAll(start, inputs + [input])
  {
    hide CpcUnion.HasRoom, CpcUnion.Valid, CpcSketch.Valid, Joined, JoinedLgK;
    assert (inputs + [input])[..|inputs|] == inputs;
    union.InternalUpdate(sketch);
  }

  /** Any sequence of updates leaves the join of all inputs. */
  method UpdateAll(union: CpcUnion, sketches: seq<CpcSketch>, ghost inputs: seq<Input>)
    requires union.Valid() && |inputs| == |sketches|
    requires forall i | 0 <= i < |sketches| :: Matches(sketches[i], inputs[i])
    requires forall i | 0 <= i < |sketches| :: {sketches[i], sketches[i].table} !! union.Repr()
    requires RoomForAll(Input(union.lgK, union.content), inputs)
    modifies union.Repr()
    ensures union.Valid()
    ensures Input(union.lgK, union.content) == JoinAll(Input(old(union.lgK), old(union.content)), inputs)
  {
    hide RoomToJoin, CpcUnion.Valid, CpcUnion.HasRoom, CpcSketch.Valid, Joined, JoinedLgK, RoomForAll;
    ghost var start := Input(union.lgK, union.content);
    for i := 0 to |sketches|
      invariant union.Valid() && fresh(union.Repr() - old(union.Repr()))
      invariant Input(union.lgK, union.content) == JoinAll(start, inputs[..i])
      invariant forall j | 0 <= j < |sketches| :: Matches(sketches[j], inputs[j])
      invariant forall j | 0 <= j < |sketches| :: {sketches[j], sketches[j].table} !! union.Repr()
    {
      hide RoomToJoin, CpcUnion.Valid, CpcUnion.HasRoom, CpcSketch.Valid, Joined, JoinedLgK, JoinAll, RoomForAll;
      assert Matches(sketches[i], inputs[i]);
      RoomFor(start, inputs, i);
      assert inputs[..i + 1] == inputs[..i] + [inputs[i]];
      union.RoomSuffices(sketches[i]);
      UpdateNext(union, sketches[i], start, inputs[..i], inputs[i]);
    }
    assert inputs[..|inputs|] == inputs;
  }

  /** Sketches whose sizes are within a factor of 256 always find room. */
  lemma RoomWithin8(lgK: nat, content: set<nat>, srcLgK: nat, src: set<nat>)
    requires MIN_LG_K <= lgK <= MAX_LG_K && MIN_LG_K <= srcLgK <= MAX_LG_K
    requires lgK <= srcLgK + 8 && srcLgK <= lgK + 8
    ensures RoomToJoin(lgK, content, srcLgK, src)
  {
    var l := JoinedLgK(lgK, srcLgK, src);
    if IsSparse(content, lgK) && src != {} {
      FoldShrinks(content, l);
      FoldShrinks(src, l);
      Within8(lgK, l);
      Within8(srcLgK, l);
      BoundPerRow(l);
      hide Pow2, Fold, Collectable, OffsetFloor, OverfullOffset;
      SmallSetsAreCollectable({}, Fold(content, l), l);
      if IsSparse(src, srcLgK) {
        SmallSetsAreCollectable(Fold(content, l), Fold(src, l), l);
      }
    }
  }

  lemma Within8(big: nat, small: nat)
    requires big <= small || (big <= small + 8 && big <= MAX_LG_K)
    ensures Pow2(big) <= 256 * Pow2(small) && (small > 24 ==> Pow2(big) <= 2 * Pow2(small)) && Pow2(small) > 0
  {
    TimesPowers(small);
    hide Pow2;
    if big <= small {
      Pow2Mono(big, small);
    } else if small <= 24 {
      Pow2Mono(big, small + 8);
    } else {
      Pow2Mono(big, small + 1);
    }
  }

  lemma TimesPowers(n: nat)
    ensures Pow2(n) > 0 && Pow2(n + 1) == 2 * Pow2(n) && Pow2(n + 8) == 256 * Pow2(n) && Pow2(n + 9) == 512 * Pow2(n)
  {
    Pow2Add(n, 8);
    assert Pow2(8) == 256;
  }

  /** At a factor of 512 they need not: whatever the slots of this sparse sketch, the walk overfills an
      empty union. */
  lemma NoRoomAt9(union: CpcUnion, sketch: CpcSketch)
    requires union.Valid() && sketch.Valid() && union.content == {} && sketch.lgK == union.lgK + 9
    requires sketch.coupons == LateCells(Pow2(union.lgK), OverfullOffset(union.lgK))
    ensures IsSparse(sketch.coupons, sketch.lgK) && !union.HasRoom(sketch)
  {
    var l := union.lgK;
    LateIsSparse(l, sketch.lgK);
    EmptyIsSparse(union);
    hide Pow2, LateCells, OverfullOffset, IsSparse, Fold, CpcSketch.Valid, CpcUnion.Valid, WalkHasRoom, Holds, Distinct;
    SparseHasNoWindow(sketch);
    SparseItems(sketch);
    WalkFeedsAll(sketch.table.slots, sketch.table.lgSize, sketch.table.items, l);
    LateRunsFail(Walk(sketch.table.slots, l, |sketch.table.slots|), l);
    NoWalk(sketch.table.slots, l);
  }

  lemma NoWalk(slots: seq<nat>, lgK: nat)
    requires |slots| >= 4 && !RunHasRoom({}, Walk(slots, lgK, |slots|), lgK)
    ensures !WalkHasRoom(slots, {}, lgK)
  {
    hide RunHasRoom, Walk;
  }

  lemma EmptyIsSparse(union: CpcUnion)
    requires union.Valid() && union.content == {}
    ensures union.accumulator != null && IsSparse({}, union.lgK) && MIN_LG_K <= union.lgK <= MAX_LG_K
    ensures Fold({}, union.lgK) == {}
  {
    hide CpcSketch.Valid, MatrixOf;
    assert Pow2(union.lgK) > 0;
    FoldSingle(0, union.lgK);
  }

  /** Late coupons of a small size, seen as coupons of a size 512 times larger. */
  lemma LateIsSparse(l: nat, big: nat)
    requires MIN_LG_K <= l && big == l + 9 <= MAX_LG_K
    ensures var s := LateCells(Pow2(l), OverfullOffset(l));
            s != {} && IsSparse(s, big) && Fold(s, l) == s && forall c | c in s :: IsCoupon(c, Pow2(big))
  {
    var k, s := Pow2(l), LateCells(Pow2(l), OverfullOffset(l));
    LateIsTooMuch(l);
    BoundPerRow(l);
    RowCount(l);
    TimesPowers(l);
    CellCount(l);
    hide Pow2, LateCells, OffsetFloor, OverfullOffset;
    forall c | c in s ensures IsCoupon(c, k) {
      LateCoupon(k, OverfullOffset(l), c);
    }
    FoldOfFitting(s, l);
  }
}
