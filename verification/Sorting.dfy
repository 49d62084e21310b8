/** The in-place sorts and the overlapping merge of cpc/include/u32_table_impl.hpp. */
module Sorting {

  ghost predicate SortedRange(s: seq<nat>, l: int, r: int) {
    forall x, y | 0 <= l <= x < y < r <= |s| :: s[x] <= s[y]
  }

  /** Same elements, and nothing moved outside [l, r). */
  ghost predicate Rearranged(s: seq<nat>, t: seq<nat>, l: nat, r: nat) {
    && |s| == |t|
    && multiset(s) == multiset(t)
    && forall x | 0 <= x < |s| && !(l <= x < r) :: s[x] == t[x]
  }

  lemma RearrangedTrans(s: seq<nat>, t: seq<nat>, u: seq<nat>, l: nat, r: nat)
    requires Rearranged(s, t, l, r) && Rearranged(t, u, l, r)
    ensures Rearranged(s, u, l, r)
  {
  }

  lemma SwapKeepsMultiset(t: seq<nat>, x: nat, y: nat)
    requires x < |t| && y < |t|
    ensures multiset(t[x := t[y]][y := t[x]]) == multiset(t)
  {
    UpdateMultiset(t, x, t[y]);
    UpdateMultiset(t[x := t[y]], y, t[x]);
  }

  lemma UpdateMultiset(t: seq<nat>, x: nat, v: nat)
    requires x < |t|
    ensures multiset(t[x := v]) == multiset(t) - multiset{t[x]} + multiset{v}
  {
  }

  /** The array with v put into the hole at j. */
  ghost predicate HoleAt(s0: seq<nat>, s: seq<nat>, j: nat, v: nat, l: nat, r: nat) {
    j < |s| && l <= j < r && Rearranged(s0, s[j := v], l, r)
  }

  lemma MoveHole(s0: seq<nat>, s: seq<nat>, j: nat, h: nat, v: nat, l: nat, r: nat)
    requires HoleAt(s0, s, j, v, l, r) && 0 < h && l + h <= j
    ensures HoleAt(s0, s[j := s[j - h]], j - h, v, l, r)
  {
    hide Rearranged;
    HoleMoved(s, j, j - h, v, l, r);
    RearrangedTrans(s0, s[j := v], s[j := s[j - h]][j - h := v], l, r);
  }

  lemma HoleMoved(s: seq<nat>, j: nat, k: nat, v: nat, l: nat, r: nat)
    requires l <= k < j < r && j < |s|
    ensures Rearranged(s[j := v], s[j := s[k]][k := v], l, r)
  {
    SwapKeepsMultiset(s[j := v], j, k);
    MoveIsSwap(s, j, k, v);
  }

  lemma MoveIsSwap(s: seq<nat>, j: nat, k: nat, v: nat)
    requires k < j < |s|
    ensures var t := s[j := v]; s[j := s[k]][k := v] == t[j := t[k]][k := t[j]]
  {
  }

  /** While an insertion shifts larger elements up: the part below the hole and the part above it
      are sorted, v is below the latter, and the two parts are in order. */
  ghost predicate Inserting(s: seq<nat>, l: int, j: int, i: int, v: nat) {
    && 0 <= l <= j <= i < |s|
    && SortedRange(s, l, j)
    && SortedRange(s, j + 1, i + 1)
    && (forall x, y | l <= x < j && j < y <= i :: s[x] <= s[y])
    && (forall y | j < y <= i :: v < s[y])
  }

  lemma ShiftUp(s: seq<nat>, l: int, j: int, i: int, v: nat)
    requires Inserting(s, l, j, i, v) && l < j && v < s[j - 1]
    ensures Inserting(s[j := s[j - 1]], l, j - 1, i, v)
  {
  }

  lemma PutDown(s: seq<nat>, l: int, j: int, i: int, v: nat)
    requires Inserting(s, l, j, i, v) && (l < j ==> s[j - 1] <= v)
    ensures SortedRange(s[j := v], l, i + 1)
  {
  }

  /** Inserts element i among the elements h apart from it: the inner loop of both sorts. With h
      equal to 1 it extends a sorted prefix. */
  method GapInsert(a: array<nat>, l: nat, i: nat, h: nat) returns (j: nat)
    requires 0 < h && l + h <= i < a.Length
    modifies a
    ensures Rearranged(old(a[..]), a[..], l, i + 1)
    ensures l <= j <= i
    ensures h == 1 && SortedRange(old(a[..]), l, i) ==> SortedRange(a[..], l, i + 1)
  {
    hide HoleAt, Inserting, Rearranged, SortedRange;
    j := i;
    var v := a[i];
    ghost var s0 := a[..];
    ghost var sorting := h == 1 && SortedRange(s0, l, i);
    StartInsert(s0, l, i);
    while j >= l + h && v < a[j - h]
      invariant l <= j <= i
      invariant HoleAt(s0, a[..], j, v, l, i + 1)
      invariant sorting ==> Inserting(a[..], l, j, i, v)
    {
      hide HoleAt, Inserting, Rearranged, SortedRange;
      ghost var s := a[..];
      ghost var s' := s[j := s[j - h]];
      MoveHole(s0, s, j, h, v, l, i + 1);
      if sorting {
        ShiftUp(s, l, j, i, v);
      }
      a[j] := a[j - h];
      assert a[..] == s';
      j := j - h;
    }
    if sorting {
      PutDown(a[..], l, j, i, v);
    }
    FillHole(s0, a[..], j, v, l, i + 1);
    ghost var s := a[..];
    a[j] := v;
    assert a[..] == s[j := v];
  }

  lemma StartInsert(s: seq<nat>, l: nat, i: nat)
    requires l <= i < |s|
    ensures HoleAt(s, s, i, s[i], l, i + 1)
    ensures SortedRange(s, l, i) ==> Inserting(s, l, i, i, s[i])
  {
    assert s[i := s[i]] == s;
  }

  lemma FillHole(s0: seq<nat>, s: seq<nat>, j: nat, v: nat, l: nat, r: nat)
    requires HoleAt(s0, s, j, v, l, r)
    ensures Rearranged(s0, s[j := v], l, r)
  {
  }

  /** Insertion sort that gives up on badly ordered input and calls the shell sort. */
  method IntrospectiveInsertionSort(a: array<nat>, l: nat, r: nat)
    requires l <= r <= a.Length
    modifies a
    ensures Rearranged(old(a[..]), a[..], l, r) && SortedRange(a[..], l, r)
  {
    var length := r - l;
    var costLimit := 8 * length;
    var cost := 0;
    var i := l + 1;
    while i < r
      invariant l < i && (i <= r || r <= l + 1)
      invariant Rearranged(old(a[..]), a[..], l, r)
      invariant SortedRange(a[..], l, i)
    {
      hide SortedRange;
      ghost var s := a[..];
      var j := GapInsert(a, l, i, 1);
      assert Rearranged(s, a[..], l, r);
      RearrangedTrans(old(a[..]), s, a[..], l, r);
      cost := cost + (i - j); // as many places as the item has moved
      if cost > costLimit {
        s := a[..];
        KnuthShellSort3(a, l, r);
        RearrangedTrans(old(a[..]), s, a[..], l, r);
        return;
      }
      i := i + 1;
    }
  }

  /** The gaps 1, 4, 13, ...: every one is 0 or leads down to 1 before it reaches 0. */
  ghost predicate KnuthGap(h: nat) {
    h == 0 || h == 1 || (h > 1 && h % 3 == 1 && KnuthGap(h / 3))
  }

  method FirstGap(n: nat) returns (h: nat)
    ensures h > 0 && KnuthGap(h)
  {
    h := 1;
    while h < n / 9
      invariant h > 0 && KnuthGap(h)
      decreases n / 9 - h
    {
      h := 3 * h + 1;
    }
  }

  method KnuthShellSort3(a: array<nat>, l: nat, r: nat)
    requires l <= r <= a.Length
    modifies a
    ensures Rearranged(old(a[..]), a[..], l, r) && SortedRange(a[..], l, r)
  {
    var h := FirstGap(r - l);
    while h > 0
      invariant KnuthGap(h)
      invariant Rearranged(old(a[..]), a[..], l, r)
      invariant h == 0 ==> SortedRange(a[..], l, r)
      decreases h
    {
      hide SortedRange, Rearranged;
      ghost var s := a[..];
      ShellPass(a, l, r, h);
      RearrangedTrans(old(a[..]), s, a[..], l, r);
      h := h / 3;
    }
  }

  method ShellPass(a: array<nat>, l: nat, r: nat, h: nat)
    requires l <= r <= a.Length && h > 0
    modifies a
    ensures Rearranged(old(a[..]), a[..], l, r)
    ensures h == 1 ==> SortedRange(a[..], l, r)
  {
    var i := l + h;
    while i < r
      invariant l + h <= i && (i <= r || r <= l + h)
      invariant Rearranged(old(a[..]), a[..], l, r)
      invariant h == 1 ==> SortedRange(a[..], l, i)
    {
      hide SortedRange;
      ghost var s := a[..];
      var j := GapInsert(a, l, i, h);
      assert Rearranged(s, a[..], l, r);
      RearrangedTrans(old(a[..]), s, a[..], l, r);
      i := i + 1;
    }
  }
}
