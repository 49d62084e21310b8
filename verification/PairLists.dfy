/** Sorted lists of row/column pairs: unwrapped from a table, read from a window, and merged
    (cpc/include/u32_table_impl.hpp and cpc_compressor_impl.hpp). */
module PairLists {
  import opened Words
  import opened U32Tables
  import opened CpcSketches
  import opened Folding

  ghost predicate Increasing(s: seq<nat>) {
    forall i, j | 0 <= i < j < |s| :: s[i] < s[j]
  }

  lemma {:induction false} CountedIsDistinct(s: seq<nat>)
    requires |Elements(s)| == |s|
    ensures NoDuplicates(s)
  {
    if s != [] {
      var t, last := s[..|s| - 1], s[|s| - 1];
      assert s == t + [last];
      assert Elements(s) == Elements(t) + {last};
      ElementsBound(t);
      CountedIsDistinct(t);
      assert last !in Elements(t);
    }
  }

  // ----- unwrapping a table -----

  /** What has been stored at both ends of the result so far. */
  ghost predicate Ends(result: seq<nat>, l: nat, r: int, seen: set<nat>) {
    && l <= r + 1 <= |result|
    && |seen| == l + (|result| - 1 - r)
    && Elements(result[..l] + result[r + 1..]) == seen
  }

  lemma EndsAdd(result: seq<nat>, l: nat, r: int, seen: set<nat>, x: nat)
    requires Ends(result, l, r, seen) && x !in seen && |seen| < |result|
    ensures l <= r < |result| && Ends(result[l := x], l + 1, r, seen + {x})
    ensures Ends(result[r := x], l, r - 1, seen + {x})
  {
    var s := result[..l] + result[r + 1..];
    var left, right := result[l := x], result[r := x];
    assert left[..l + 1] + left[r + 1..] == result[..l] + [x] + result[r + 1..];
    assert right[..l] + right[r..] == result[..l] + [x] + result[r + 1..];
    assert Elements(result[..l] + [x] + result[r + 1..]) == Elements(s) + {x};
  }

  lemma EndsMeet(result: seq<nat>, l: nat, r: int, seen: set<nat>)
    requires Ends(result, l, r, seen) && |seen| == |result|
    ensures l == r + 1 && Elements(result) == seen
  {
    assert result[..l] + result[r + 1..] == result;
  }

  /** The items of some slots, in their order. */
  function ItemsIn(slots: seq<nat>): seq<nat> {
    if slots == [] then []
    else
      var last := slots[|slots| - 1];
      ItemsIn(slots[..|slots| - 1]) + if last == EMPTY then [] else [last]
  }

  /** Those among them without the bit, in their order. */
  function Without(items: seq<nat>, bit: nat): seq<nat> {
    if items == [] then []
    else
      var last := items[|items| - 1];
      Without(items[..|items| - 1], bit) + if Bit(last, bit) then [] else [last]
  }

  /** Those with the bit, in reverse order. */
  function BackwardsWith(items: seq<nat>, bit: nat): seq<nat> {
    if items == [] then []
    else
      var last := items[|items| - 1];
      (if Bit(last, bit) then [last] else []) + BackwardsWith(items[..|items| - 1], bit)
  }

  /** The first c slots are those before the first empty one. */
  ghost predicate IsFirstCluster(slots: seq<nat>, c: nat) {
    c <= |slots| && EMPTY !in slots[..c] && (c < |slots| ==> slots[c] == EMPTY)
  }

  /** Items of the first cluster that have the top bit were probably wrapped around: they come last, and
      the others in the order of their slots. */
  ghost predicate Unwrapped(slots: seq<nat>, hiBit: nat, result: seq<nat>) {
    exists c: nat | IsFirstCluster(slots, c) ::
      result == Without(slots[..c], hiBit) + ItemsIn(slots[c..]) + BackwardsWith(slots[..c], hiBit)
  }

  method StoreItem(result: array<nat>, l: nat, r: int, item: nat, atEnd: bool, ghost seen: set<nat>)
    returns (l': nat, r': int)
    requires Ends(result[..], l, r, seen) && item !in seen && |seen| < result.Length
    modifies result
    ensures Ends(result[..], l', r', seen + {item})
    ensures l' <= result.Length && 0 <= r' + 1 <= result.Length && l <= result.Length && 0 <= r + 1 <= result.Length
    ensures result[..l'] == old(result[..l]) + if atEnd then [] else [item]
    ensures result[r' + 1..] == (if atEnd then [item] else []) + old(result[r + 1..])
  {
    hide Ends;
    ghost var before := result[..];
    EndsAdd(before, l, r, seen, item);
    if atEnd {
      StoredRight(before, l, r, item);
      l', r' := l, r - 1;
      result[r] := item;
      assert result[..] == before[r := item];
    } else {
      StoredLeft(before, l, r, item);
      l', r' := l + 1, r;
      result[l] := item;
      assert result[..] == before[l := item];
    }
  }

  lemma StoredRight(result: seq<nat>, l: nat, r: int, x: nat)
    requires l <= r < |result|
    ensures result[r := x][..l] == result[..l] && result[r := x][r..] == [x] + result[r + 1..]
  {
  }

  lemma StoredLeft(result: seq<nat>, l: nat, r: int, x: nat)
    requires l <= r < |result|
    ensures result[l := x][..l + 1] == result[..l] + [x] && result[l := x][r + 1..] == result[r + 1..]
  {
  }

  /** The items of a table. Items before the first empty slot that have their top bit set were
      probably wrapped around, and go to the end. */
  method UnwrappingGetItems(table: U32Table) returns (result: array<nat>)
    requires table.Valid() && table.numValidBits > 0
    ensures fresh(result) && result.Length == |table.items|
    ensures Elements(result[..]) == table.items && NoDuplicates(result[..])
    ensures Unwrapped(table.slots, table.numValidBits - 1, result[..])
  {
    table.SlotsHoldItems();
    result := new nat[table.numItems](_ => 0);
    if table.numItems == 0 {
      assert Elements(result[..]) == {};
      NothingWrapped(table.slots, table.numValidBits - 1);
      return;
    }
    NoEnds(result[..]);
    UnwrapInto(table.slots, table.numValidBits - 1, result, table.items);
    CountedIsDistinct(result[..]);
  }

  method UnwrapInto(slots: seq<nat>, hiBit: nat, result: array<nat>, ghost items: set<nat>)
    requires Holds(slots, items) && Distinct(slots) && result.Length == |items| > 0
    requires Ends(result[..], 0, result.Length - 1, {})
    modifies result
    ensures Elements(result[..]) == items && Unwrapped(slots, hiBit, result[..])
  {
    hide Holds, Distinct, Ends, Elements, Without, BackwardsWith, ItemsIn, IsFirstCluster, Unwrapped;
    var i: nat, l: nat, r: int;
    ghost var seen;
    i, l, r, seen := UnwrapFirstCluster(slots, hiBit, result, items);
    ghost var c := i;
    NoItems();
    assert slots[c..c] == [];
    // behind the first empty slot nothing can have wrapped around
    while i < |slots|
      invariant c <= i <= |slots| && Holds(slots[..i], seen) && seen <= items
      invariant Ends(result[..], l, r, seen) && l <= result.Length && 0 <= r + 1 <= result.Length
      invariant result[..l] == Without(slots[..c], hiBit) + ItemsIn(slots[c..i])
      invariant result[r + 1..] == BackwardsWith(slots[..c], hiBit)
    {
      hide Holds, Distinct, Ends, Elements, Without, BackwardsWith, ItemsIn, IsFirstCluster, Unwrapped;
      HoldsNext(slots, i, seen, items);
      NextItems(slots, c, i);
      if slots[i] != EMPTY {
        l, r := StoreItem(result, l, r, slots[i], false, seen);
        seen := seen + {slots[i]};
      }
      i := i + 1;
    }
    HoldsUnique(slots, seen, items);
    EndsMeet(result[..], l, r, seen);
    AllUnwrapped(slots, hiBit, c, result[..], l);
  }

  lemma AllUnwrapped(slots: seq<nat>, hiBit: nat, c: nat, result: seq<nat>, l: nat)
    requires IsFirstCluster(slots, c) && c <= |slots| && l <= |result|
    requires result[..l] == Without(slots[..c], hiBit) + ItemsIn(slots[c..|slots|])
    requires result[l..] == BackwardsWith(slots[..c], hiBit)
    ensures Unwrapped(slots, hiBit, result)
  {
    hide Without, BackwardsWith, ItemsIn;
    assert slots[c..|slots|] == slots[c..];
    assert result == result[..l] + result[l..];
  }

  lemma NoItems()
    ensures ItemsIn([]) == []
  {
  }

  lemma NextItems(slots: seq<nat>, c: nat, i: nat)
    requires c <= i < |slots|
    ensures ItemsIn(slots[c..i + 1]) == ItemsIn(slots[c..i]) + if slots[i] == EMPTY then [] else [slots[i]]
  {
    assert slots[c..i + 1][..i - c] == slots[c..i];
  }

  lemma NextInCluster(slots: seq<nat>, i: nat, hiBit: nat)
    requires i < |slots|
    ensures Without(slots[..i + 1], hiBit) == Without(slots[..i], hiBit) + if Bit(slots[i], hiBit) then [] else [slots[i]]
    ensures BackwardsWith(slots[..i + 1], hiBit)
            == (if Bit(slots[i], hiBit) then [slots[i]] else []) + BackwardsWith(slots[..i], hiBit)
  {
    assert slots[..i + 1][..i] == slots[..i];
  }

  lemma NothingWrapped(slots: seq<nat>, hiBit: nat)
    requires forall i | 0 <= i < |slots| :: slots[i] == EMPTY
    ensures Unwrapped(slots, hiBit, [])
  {
    assert slots[..0] == [] && slots[0..] == slots;
    NothingIn(slots);
    assert IsFirstCluster(slots, 0);
  }

  lemma {:induction false} NothingIn(slots: seq<nat>)
    requires forall i | 0 <= i < |slots| :: slots[i] == EMPTY
    ensures ItemsIn(slots) == []
  {
    if slots != [] {
      NothingIn(slots[..|slots| - 1]);
    }
  }

  /** Up to the first empty slot, items with a high top bit have come round from the end of the table. */
  method UnwrapFirstCluster(slots: seq<nat>, hiBit: nat, result: array<nat>, ghost items: set<nat>)
    returns (i: nat, l: nat, r: int, ghost seen: set<nat>)
    requires Holds(slots, items) && Distinct(slots) && result.Length == |items| > 0
    requires Ends(result[..], 0, result.Length - 1, {})
    modifies result
    ensures i <= |slots| && Holds(slots[..i], seen) && seen <= items && Ends(result[..], l, r, seen)
    ensures IsFirstCluster(slots, i) && l <= result.Length && 0 <= r + 1 <= result.Length
    ensures result[..l] == Without(slots[..i], hiBit) && result[r + 1..] == BackwardsWith(slots[..i], hiBit)
  {
    hide Holds, Distinct, Ends, Elements;
    i, l, r, seen := 0, 0, result.Length - 1, {};
    HoldsNothing(slots);
    assert slots[..0] == [];
    while i < |slots| && slots[i] != EMPTY
      invariant i <= |slots| && Holds(slots[..i], seen) && seen <= items && EMPTY !in slots[..i]
      invariant Ends(result[..], l, r, seen) && l <= result.Length && 0 <= r + 1 <= result.Length
      invariant result[..l] == Without(slots[..i], hiBit) && result[r + 1..] == BackwardsWith(slots[..i], hiBit)
    {
      hide Holds, Distinct, Ends, Elements, Bit, Without, BackwardsWith;
      HoldsNext(slots, i, seen, items);
      NextInCluster(slots, i, hiBit);
      l, r := StoreItem(result, l, r, slots[i], Bit(slots[i], hiBit), seen);
      seen := seen + {slots[i]};
      i := i + 1;
    }
  }

  lemma NoEnds(result: seq<nat>)
    ensures Ends(result, 0, |result| - 1, {})
  {
    assert result[..0] + result[|result|..] == [];
  }

  // ----- merging -----

  /** The merge of two sorted lists, taking from b on ties. */
  function Merged(a: seq<nat>, b: seq<nat>): seq<nat> {
    if b == [] then a
    else if a == [] then b
    else if a[0] < b[0] then [a[0]] + Merged(a[1..], b)
    else [b[0]] + Merged(a, b[1..])
  }

  lemma {:induction false} MergedKeeps(a: seq<nat>, b: seq<nat>)
    ensures |Merged(a, b)| == |a| + |b|
    ensures Elements(Merged(a, b)) == Elements(a) + Elements(b)
    decreases |a| + |b|
  {
    if b != [] && a != [] {
      if a[0] < b[0] {
        MergedKeeps(a[1..], b);
        assert Elements(a) == {a[0]} + Elements(a[1..]) by {
          assert a == [a[0]] + a[1..];
        }
        assert Elements(Merged(a, b)) == {a[0]} + Elements(Merged(a[1..], b));
      } else {
        MergedKeeps(a, b[1..]);
        assert Elements(b) == {b[0]} + Elements(b[1..]) by {
          assert b == [b[0]] + b[1..];
        }
        assert Elements(Merged(a, b)) == {b[0]} + Elements(Merged(a, b[1..]));
      }
    }
  }

  lemma {:induction false} MergedIncreases(a: seq<nat>, b: seq<nat>)
    requires Increasing(a) && Increasing(b) && Elements(a) !! Elements(b)
    ensures Increasing(Merged(a, b))
    decreases |a| + |b|
  {
    if b != [] && a != [] {
      assert a[0] in Elements(a) && b[0] in Elements(b);
      if a[0] < b[0] {
        MergedIncreases(a[1..], b);
        MergedKeeps(a[1..], b);
        ConsIncreases(a[0], Merged(a[1..], b));
      } else {
        MergedIncreases(a, b[1..]);
        MergedKeeps(a, b[1..]);
        ConsIncreases(b[0], Merged(a, b[1..]));
      }
    }
  }

  lemma ConsIncreases(x: nat, s: seq<nat>)
    requires Increasing(s) && forall y | y in Elements(s) :: x < y
    ensures Increasing([x] + s)
  {
    forall j | 0 <= j < |s| ensures x < s[j] {
      assert s[j] in Elements(s);
    }
  }

  lemma MergedStep(a: seq<nat>, b: seq<nat>)
    requires |a| + |b| > 0
    ensures b == [] ==> Merged(a, b) == [a[0]] + Merged(a[1..], b)
    ensures b != [] && a == [] ==> Merged(a, b) == [b[0]] + Merged(a, b[1..])
    ensures b != [] && a != [] && a[0] < b[0] ==> Merged(a, b) == [a[0]] + Merged(a[1..], b)
    ensures b != [] && a != [] && a[0] >= b[0] ==> Merged(a, b) == [b[0]] + Merged(a, b[1..])
  {
    if b == [] {
      assert a == [a[0]] + a[1..];
    } else if a == [] {
      assert b == [b[0]] + b[1..];
    }
  }

  /** An input may share the output's array if it ends before the output begins, or begins after it by
      at least the length of the other input: the output then never overtakes its unread part. */
  predicate Apart(start: nat, length: nat, startC: nat, lengthOther: nat) {
    startC >= start + length || start >= startC + lengthOther
  }

  /** A merge on its way: what has been written and what is still to be merged make up the total, and
      the next place of the output holds nothing that is still to be read. */
  ghost predicate Merging(arrA: array<nat>, a: nat, limA: nat, arrB: array<nat>, b: nat, limB: nat,
                          arrC: array<nat>, startC: nat, c: nat, total: seq<nat>, before: seq<nat>)
    reads arrA, arrB, arrC
  {
    && a <= limA <= arrA.Length && b <= limB <= arrB.Length && startC <= c <= arrC.Length == |before|
    && (arrA == arrC ==> c >= limA || a - c >= limB - b)
    && (arrB == arrC ==> c >= limB || b - c >= limA - a)
    && arrC[startC..c] + Merged(arrA[a..limA], arrB[b..limB]) == total
    && arrC[..startC] == before[..startC] && arrC[c..] == before[c..]
  }

  /** Merges two sorted parts of arrays into a part of a third. */
  method Merge(arrA: array<nat>, startA: nat, lengthA: nat, arrB: array<nat>, startB: nat, lengthB: nat,
               arrC: array<nat>, startC: nat)
    requires startA + lengthA <= arrA.Length && startB + lengthB <= arrB.Length
    requires startC + lengthA + lengthB <= arrC.Length
    requires arrA == arrC ==> Apart(startA, lengthA, startC, lengthB)
    requires arrB == arrC ==> Apart(startB, lengthB, startC, lengthA)
    modifies arrC
    ensures arrC[startC..startC + lengthA + lengthB]
            == Merged(old(arrA[startA..startA + lengthA]), old(arrB[startB..startB + lengthB]))
    ensures arrC[..startC] == old(arrC[..startC])
    ensures arrC[startC + lengthA + lengthB..] == old(arrC[startC + lengthA + lengthB..])
  {
    hide Merged, Merging, Apart;
    var limA, limB, limC := startA + lengthA, startB + lengthB, startC + lengthA + lengthB;
    ghost var before, total := arrC[..], Merged(arrA[startA..limA], arrB[startB..limB]);
    MergingStarts(arrA, startA, limA, arrB, startB, limB, arrC, startC);
    MergeRest(arrA, startA, limA, arrB, startB, limB, arrC, startC, limC, total, before);
    MergingEnds(arrA, limA, arrB, limB, arrC, startC, limC, total, before);
  }

  method MergeRest(arrA: array<nat>, startA: nat, limA: nat, arrB: array<nat>, startB: nat, limB: nat,
                   arrC: array<nat>, startC: nat, limC: nat, ghost total: seq<nat>, ghost before: seq<nat>)
    requires Merging(arrA, startA, limA, arrB, startB, limB, arrC, startC, startC, total, before)
    requires startA <= limA && startB <= limB && limC <= arrC.Length
    requires limC - startC == (limA - startA) + (limB - startB)
    modifies arrC
    ensures Merging(arrA, limA, limA, arrB, limB, limB, arrC, startC, limC, total, before)
  {
    hide Merging;
    var a, b := startA, startB;
    for c := startC to limC
      invariant startA <= a <= limA && startB <= b <= limB && c - startC == (a - startA) + (b - startB)
      invariant Merging(arrA, a, limA, arrB, b, limB, arrC, startC, c, total, before)
    {
      hide Merging;
      a, b := MergeNext(arrA, a, limA, arrB, b, limB, arrC, startC, c, total, before);
    }
    // the exception "merging error" cannot be thrown
    assert a == limA && b == limB;
  }

  lemma MergingStarts(arrA: array<nat>, startA: nat, limA: nat, arrB: array<nat>, startB: nat, limB: nat,
                      arrC: array<nat>, startC: nat)
    requires startA <= limA <= arrA.Length && startB <= limB <= arrB.Length && startC <= arrC.Length
    requires arrA == arrC ==> Apart(startA, limA - startA, startC, limB - startB)
    requires arrB == arrC ==> Apart(startB, limB - startB, startC, limA - startA)
    ensures Merging(arrA, startA, limA, arrB, startB, limB, arrC, startC, startC,
                    Merged(arrA[startA..limA], arrB[startB..limB]), arrC[..])
  {
    hide Merged;
  }

  lemma MergingEnds(arrA: array<nat>, limA: nat, arrB: array<nat>, limB: nat, arrC: array<nat>, startC: nat, limC: nat,
                    total: seq<nat>, before: seq<nat>)
    requires Merging(arrA, limA, limA, arrB, limB, limB, arrC, startC, limC, total, before)
    ensures startC <= limC <= arrC.Length == |before| && arrC[startC..limC] == total
    ensures arrC[..startC] == before[..startC] && arrC[limC..] == before[limC..]
  {
    NothingLeft();
    hide Merged;
    assert arrA[limA..limA] == [] && arrB[limB..limB] == [];
    assert arrC[startC..limC] + [] == arrC[startC..limC];
  }

  /** The merge of two lists of which the second stands in the upper part of the output itself. */
  method MergeOverlapping(lower: array<nat>, all: array<nat>)
    requires lower != all && lower.Length <= all.Length
    modifies all
    ensures all[..] == Merged(lower[..], old(all[lower.Length..]))
  {
    assert lower[0..lower.Length] == lower[..] && all[lower.Length..all.Length] == all[lower.Length..];
    Merge(lower, 0, lower.Length, all, lower.Length, all.Length - lower.Length, all, 0);
    assert all[0..all.Length] == all[..];
  }

  lemma NothingLeft()
    ensures Merged([], []) == []
  {
  }

  lemma MergeProgress(done: seq<nat>, x: nat, rest: seq<nat>, total: seq<nat>)
    requires done + ([x] + rest) == total
    ensures (done + [x]) + rest == total
  {
    assert done + ([x] + rest) == (done + [x]) + rest;
  }

  /** One output, to a place that holds nothing that is still to be read. */
  method MergeNext(arrA: array<nat>, a: nat, limA: nat, arrB: array<nat>, b: nat, limB: nat, arrC: array<nat>,
                   ghost startC: nat, c: nat, ghost total: seq<nat>, ghost before: seq<nat>)
    returns (a': nat, b': nat)
    requires Merging(arrA, a, limA, arrB, b, limB, arrC, startC, c, total, before)
    requires c < arrC.Length && (a < limA || b < limB)
    modifies arrC
    ensures a <= a' <= limA && b <= b' <= limB && (a' - a) + (b' - b) == 1
    ensures Merging(arrA, a', limA, arrB, b', limB, arrC, startC, c + 1, total, before)
  {
    ghost var restA, restB := arrA[a..limA], arrB[b..limB];
    MergedStep(restA, restB);
    hide Merged;
    a', b' := a, b;
    var next;
    if b >= limB {
      next, a' := arrA[a], a + 1;
    } else if a >= limA {
      next, b' := arrB[b], b + 1;
    } else if arrA[a] < arrB[b] {
      next, a' := arrA[a], a + 1;
    } else {
      next, b' := arrB[b], b + 1;
    }
    restA, restB := if a' > a then restA[1..] else restA, if b' > b then restB[1..] else restB;
    assert restA == arrA[a'..limA] && restB == arrB[b'..limB];
    assert arrC[c + 1..] == before[c..][1..];
    StoreNext(arrA, a', limA, arrB, b', limB, arrC, startC, c, next);
    MergeProgress(old(arrC[startC..c]), next, Merged(restA, restB), total);
  }

  method StoreNext(arrA: array<nat>, ghost a: nat, ghost limA: nat, arrB: array<nat>, ghost b: nat, ghost limB: nat,
                   arrC: array<nat>, ghost startC: nat, c: nat, next: nat)
    requires a <= limA <= arrA.Length && b <= limB <= arrB.Length && startC <= c < arrC.Length
    requires arrA == arrC ==> c >= limA || c < a
    requires arrB == arrC ==> c >= limB || c < b
    modifies arrC
    ensures arrA[a..limA] == old(arrA[a..limA]) && arrB[b..limB] == old(arrB[b..limB])
    ensures arrC[..startC] == old(arrC[..startC]) && arrC[c + 1..] == old(arrC[c + 1..])
    ensures arrC[startC..c + 1] == old(arrC[startC..c]) + [next]
  {
    arrC[c] := next;
  }

  // ----- the pairs of a window -----

  lemma IncreasingCount(s: seq<nat>)
    requires Increasing(s)
    ensures |Elements(s)| == |s|
  {
    DistinctCount(s);
  }

  /** The list holds the cells of the rows before row, and of this row all but those in rest. */
  ghost predicate ListedUpTo(list: seq<nat>, window: seq<nat>, row: nat, rest: nat) {
    && row < |window| && Is64Bit(rest)
    && Increasing(list)
    && Elements(list) + RowCells(row, rest) == MatrixCells(window[..row + 1])
    && forall x, y | x in Elements(list) && y in RowCells(row, rest) :: x < y
  }

  lemma StartRow(list: seq<nat>, window: seq<nat>, row: nat)
    requires row < |window| && Is64Bit(window[row])
    requires Increasing(list) && Elements(list) == MatrixCells(window[..row])
    ensures ListedUpTo(list, window, row, window[row])
  {
    NextRowCells(window, row);
    forall x, y | x in Elements(list) && y in RowCells(row, window[row]) ensures x < y {
      assert x < 64 * row;
      var col: nat :| col < 64 && Bit(window[row], col) && y == Cell(row, col);
    }
  }

  lemma NextInRow(list: seq<nat>, window: seq<nat>, row: nat, rest: nat, col: nat, rest': nat)
    requires ListedUpTo(list, window, row, rest) && rest > 0
    requires col == TrailingZeros(rest) && rest' == Bitwise(Xor, rest, Pow2(col))
    ensures rest' < rest && ListedUpTo(list + [Cell(row, col)], window, row, rest')
    ensures |list| + 1 <= |MatrixCells(window[..row + 1])|
  {
    DrainBit(row, rest);
    hide Bitwise, Is64Bit, Elements, Increasing, MatrixCells, TrailingZeros, Pow2, Bit, RowCells, Cell;
    forall y | y in RowCells(row, rest') ensures Cell(row, col) < y {
      LeastInRow(row, rest, y);
    }
    StillListed(list, window, row, rest, Cell(row, col), rest');
  }

  lemma StillListed(list: seq<nat>, window: seq<nat>, row: nat, rest: nat, cell: nat, rest': nat)
    requires ListedUpTo(list, window, row, rest) && Is64Bit(rest')
    requires RowCells(row, rest) == RowCells(row, rest') + {cell} && forall y | y in RowCells(row, rest') :: cell < y
    ensures ListedUpTo(list + [cell], window, row, rest')
    ensures |list| + 1 <= |MatrixCells(window[..row + 1])|
  {
    hide Is64Bit, Elements, Increasing, MatrixCells, RowCells;
    AppendLeast(list, cell, RowCells(row, rest'));
    OneMoreListed(list, cell, RowCells(row, rest'), MatrixCells(window[..row + 1]));
  }

  lemma OneMoreListed(list: seq<nat>, x: nat, after: set<nat>, all: set<nat>)
    requires Elements(list) + (after + {x}) == all && |Elements(list + [x])| == |list| + 1
    ensures |list| + 1 <= |all|
  {
    SubsetSize(Elements(list + [x]), all);
  }

  lemma AppendLeast(list: seq<nat>, x: nat, after: set<nat>)
    requires Increasing(list) && forall e, y | e in Elements(list) && y in after + {x} :: e < y
    requires forall y | y in after :: x < y
    ensures Increasing(list + [x]) && Elements(list + [x]) == Elements(list) + {x}
    ensures |Elements(list + [x])| == |list| + 1
    ensures forall e, y | e in Elements(list + [x]) && y in after :: e < y
  {
    assert x in after + {x};
    forall i | 0 <= i < |list| ensures list[i] < x {
      assert list[i] in Elements(list);
    }
    IncreasingCount(list + [x]);
  }

  lemma LeastInRow(row: nat, rest: nat, y: nat)
    requires rest > 0 && y in RowCells(row, rest) && y != Cell(row, TrailingZeros(rest))
    ensures Cell(row, TrailingZeros(rest)) < y
  {
    var col: nat :| col < 64 && Bit(rest, col) && y == Cell(row, col);
    if col < TrailingZeros(rest) {
      TrailingZerosLeast(rest, col);
    }
  }

  lemma RowDone(list: seq<nat>, window: seq<nat>, row: nat)
    requires ListedUpTo(list, window, row, 0)
    ensures Elements(list) == MatrixCells(window[..row + 1]) && Increasing(list)
  {
    NoCells(row);
  }

  lemma PrefixCells(window: seq<nat>, row: nat)
    requires row < |window|
    ensures |MatrixCells(window[..row + 1])| <= |MatrixCells(window)|
  {
    SubsetSize(MatrixCells(window[..row + 1]), MatrixCells(window));
  }

  /** The cells of a window at offset 0 in order, behind empty space that the caller will fill. */
  method TrickyGetPairsFromWindow(window: seq<nat>, numPairsToGet: nat, emptySpace: nat) returns (pairs: array<nat>)
    requires Are64BitRows(window) && numPairsToGet == |MatrixCells(window)|
    ensures fresh(pairs) && pairs.Length == emptySpace + numPairsToGet
    ensures Increasing(pairs[emptySpace..]) && Elements(pairs[emptySpace..]) == MatrixCells(window)
  {
    var outputLength := emptySpace + numPairsToGet;
    pairs := new nat[outputLength](_ => 0);
    var pairIndex := emptySpace;
    assert pairs[emptySpace..pairIndex] == [];
    assert MatrixCells(window[..0]) == {};
    for rowIndex := 0 to |window|
      invariant emptySpace <= pairIndex <= outputLength
      invariant Increasing(pairs[emptySpace..pairIndex])
      invariant Elements(pairs[emptySpace..pairIndex]) == MatrixCells(window[..rowIndex])
    {
      hide Increasing, Elements, MatrixCells, Is64Bit;
      pairIndex := ListRow(window, rowIndex, pairs, emptySpace, pairIndex);
    }
    assert window[..|window|] == window;
    IncreasingCount(pairs[emptySpace..pairIndex]);
    assert pairs[emptySpace..] == pairs[emptySpace..pairIndex];
  }

  method ListRow(window: seq<nat>, row: nat, pairs: array<nat>, start: nat, index: nat) returns (index': nat)
    requires row < |window| && Is64Bit(window[row]) && start <= index <= pairs.Length
    requires pairs.Length == start + |MatrixCells(window)|
    requires Increasing(pairs[start..index]) && Elements(pairs[start..index]) == MatrixCells(window[..row])
    modifies pairs
    ensures start <= index' <= pairs.Length
    ensures Increasing(pairs[start..index']) && Elements(pairs[start..index']) == MatrixCells(window[..row + 1])
  {
    hide Increasing, Elements, MatrixCells, Is64Bit, ListedUpTo;
    var byte := window[row];
    index' := index;
    StartRow(pairs[start..index], window, row);
    PrefixCells(window, row);
    while byte != 0
      invariant start <= index' <= pairs.Length
      invariant ListedUpTo(pairs[start..index'], window, row, byte)
      decreases byte
    {
      hide Increasing, Elements, MatrixCells, Is64Bit, ListedUpTo, Cell;
      ghost var list := pairs[start..index'];
      var colIndex := TrailingZeros(byte);
      NextInRow(list, window, row, byte, colIndex, Bitwise(Xor, byte, Pow2(colIndex)));
      byte := Bitwise(Xor, byte, Pow2(colIndex)); // that column is listed
      pairs[index'] := Cell(row, colIndex);
      index' := index' + 1;
      assert pairs[start..index'] == list + [Cell(row, colIndex)];
    }
    RowDone(pairs[start..index'], window, row);
  }
}
