/** Why the documented error of the frequent-items sketch stops at maps of 2^10 slots: in any larger
    map the 1024 values that a purge samples may be heavier than the rest. */
module LargeMaps {
  import opened Words
  import opened PurgeMaps
  import opened FrequentItems

  // ----- the stream: items 0 to n - 2 except every fourth, then item n - 1 -----

  /** The position of item q in the stream. */
  function Rank(q: nat): nat {
    q - q / 4
  }

  /** Half of the first 1024 items are heavy. */
  function WeightOf(i: nat): nat {
    if 512 <= i < 1024 then 100 else 1
  }

  function Weights(c: nat): seq<nat> {
    seq(c, (i: nat) => WeightOf(i))
  }

  /** The weight of the first c items. */
  function TotalOf(c: nat): nat {
    c + 99 * (if c <= 512 then 0 else if c <= 1024 then c - 512 else 512)
  }

  /** The items of the first p slots. */
  function ItemsBefore(p: nat): map<nat, nat> {
    map q: nat | q < p && q % 4 != 3 :: WeightOf(Rank(q))
  }

  /** The items of all slots but the last, then one of weight 1 for that. */
  ghost predicate IsWholeStream(truth: map<nat, nat>, n: nat) {
    n > 0 && truth == ItemsBefore(n - 1)[n - 1 := 1]
  }

  lemma NextBefore(p: nat)
    ensures ItemsBefore(p + 1)
            == if p % 4 == 3 then ItemsBefore(p) else Adjust(ItemsBefore(p), p, WeightOf(Rank(p)))
  {
  }

  lemma NextItem(q: nat)
    ensures q % 4 != 3 ==> Rank(q + 1) == Rank(q) + 1
    ensures q % 4 == 3 ==> Rank(q + 1) == Rank(q)
    ensures TotalOf(Rank(q) + 1) == TotalOf(Rank(q)) + WeightOf(Rank(q))
  {
  }

  // ----- where the items are -----

  /** Each item is in the slot of its own number. */
  ghost predicate IsLayout(s: seq<Slot<nat>>, n: nat, p: nat) {
    && |s| == n
    && forall q: nat | q < n :: s[q] == if q < p && q % 4 != 3 then Held(q, WeightOf(Rank(q)), 1) else Free
  }

  lemma EmptyLayout(s: seq<Slot<nat>>, n: nat)
    requires |s| == n && forall q: nat | q < n :: s[q].Free?
    ensures IsLayout(s, n, 0)
  {
  }

  lemma NextLayout(s: seq<Slot<nat>>, n: nat, p: nat)
    requires IsLayout(s, n, p) && p < n
    ensures p % 4 != 3 ==> s[p].Free? && IsLayout(s[p := Held(p, WeightOf(Rank(p)), 1)], n, p + 1)
    ensures p % 4 == 3 ==> IsLayout(s, n, p + 1)
  {
  }

  lemma NextWeights(c: nat)
    ensures Weights(c + 1) == Weights(c) + [WeightOf(c)]
  {
  }

  lemma {:induction false} LayoutValues(s: seq<Slot<nat>>, n: nat, p: nat, q: nat)
    requires IsLayout(s, n, p) && q <= p <= n
    ensures Values(s[..q]) == Weights(Rank(q))
  {
    if q == 0 {
      assert Weights(Rank(0)) == [];
    } else {
      LayoutValues(s, n, p, q - 1);
      assert s[..q][..q - 1] == s[..q - 1];
      NextItem(q - 1);
      NextWeights(Rank(q - 1));
      hide Weights, WeightOf, Rank;
    }
  }

  /** The layout with its last slot filled. */
  lemma FullValues(s: seq<Slot<nat>>, n: nat, w: nat)
    requires n >= 2048 && IsLayout(s, n, n - 1)
    ensures var full := s[n - 1 := Held(n - 1, w, 1)]; |Values(full)| >= 1024 && Values(full)[..1024] == Weights(1024)
  {
    var full := s[n - 1 := Held(n - 1, w, 1)];
    assert full[..n - 1] == s[..n - 1];
    LayoutValues(s, n, n - 1, n - 1);
    assert Values(full) == Weights(Rank(n - 1)) + [w];
    assert Weights(Rank(n - 1))[..1024] == Weights(1024);
  }

  lemma {:induction false} LightWeights(c: nat)
    ensures CountSide(Weights(c), true, 1) == if c <= 512 then c else if c <= 1024 then 512 else c - 512
  {
    if c == 0 {
      assert Weights(0) == [];
    } else {
      LightWeights(c - 1);
      assert Weights(c)[..c - 1] == Weights(c - 1);
    }
  }

  lemma HeavyMiddle(m: nat)
    requires IsMiddle(Weights(1024), m)
    ensures m == 100
  {
    LightWeights(1024);
    var i :| 0 <= i < 1024 && Weights(1024)[i] == m;
  }

  /** Every fourth slot but the last is free, so no drift can come near its limit. */
  lemma LayoutRuns(s: seq<Slot<nat>>, n: nat, w: nat)
    requires n >= 2048 && n % 4 == 0 && IsLayout(s, n, n - 1)
    ensures ShortRuns(s[n - 1 := Held(n - 1, w, 1)])
  {
    var full := s[n - 1 := Held(n - 1, w, 1)];
    forall h: nat, i: nat | h < n && i < n && IsRun(full, h, i) ensures Distance(h, i, n) < DRIFT_LIMIT - 1 {
      var q: nat := if h + 8 <= n then h + (3 - h % 4) else 3;
      assert q % 4 == 3 && q < n - 1 && full[q].Free?;
    }
  }

  lemma Sizes(lg: nat)
    requires lg > 10
    ensures Pow2(lg) >= 2048 && Pow2(lg) % 4 == 0 && 4 * Capacity(lg) == 3 * Pow2(lg)
    ensures Capacity(lg) == Rank(Pow2(lg) - 1) && SampleSize(lg) == 1024
  {
    Pow2Mono(11, lg);
    assert Pow2(11) == 2048;
    assert Pow2(lg) == 4 * Pow2(lg - 2);
    hide Pow2;
  }

  lemma RoomAt(lg: nat, p: nat)
    requires lg > 10 && p < Pow2(lg) - 1 && p % 4 != 3
    ensures Rank(p) < Capacity(lg)
  {
    Sizes(lg);
    hide Pow2, Capacity;
  }

  // ----- the run -----

  /** The sketch after the items of the first p slots. */
  ghost predicate Reached(sketch: FrequentItemsSketch<nat>, lg: nat, p: nat)
    reads sketch, sketch.items, sketch.items.slots
  {
    && sketch.Valid()
    && (forall key: nat :: sketch.items.hash(key) == key)
    && sketch.items.lgCur == sketch.items.lgMax == sketch.leastLgMax == lg
    && IsLayout(sketch.items.slots[..], Pow2(lg), p)
    && sketch.items.numActive == Rank(p)
    && sketch.offset == 0 && sketch.totalWeight == TotalOf(Rank(p)) && sketch.truth == ItemsBefore(p)
  }

  lemma SettledInPlace(contents0: map<nat, nat>, key: nat, value: nat, lg: nat, contents: map<nat, nat>, offset: nat, lgCur: nat)
    requires Settled(Adjust(contents0, key, value), lg, lg, contents, offset, lgCur) && |contents0| < Capacity(lg)
    ensures offset == 0 && lgCur == lg
  {
    AdjustSize(contents0, key, value);
    hide Adjust, Capacity;
  }

  lemma OwnHome(hash: nat -> nat, key: nat, n: nat)
    requires hash(key) == key && key < n
    ensures Home(hash, key, n) == key
  {
  }

  method NextItems(sketch: FrequentItemsSketch<nat>, lg: nat, p: nat)
    requires lg > 10 && p < Pow2(lg) - 1 && Reached(sketch, lg, p)
    modifies sketch, sketch.items, sketch.items.slots
    ensures Reached(sketch, lg, p + 1) && sketch.items.slots == old(sketch.items.slots)
  {
    var n: nat := Pow2(lg);
    NextLayout(sketch.items.slots[..], n, p);
    NextItem(p);
    NextBefore(p);
    if p % 4 != 3 {
      RoomAt(lg, p);
      SlotCount(sketch.items.slots[..], n, p);
      hide FrequentItemsSketch.Valid, Settled, IsLayout, Pow2, Capacity, Adjust, Home, WeightOf,
           TotalOf, Rank, ItemsBefore;
      OwnHome(sketch.items.hash, p, sketch.items.slots.Length);
      AddItem(sketch, lg, p, WeightOf(Rank(p)));
    }
  }

  lemma SlotCount(s: seq<Slot<nat>>, n: nat, p: nat)
    requires IsLayout(s, n, p)
    ensures |s| == n
  {
  }

  /** One item that finds its home free and the map not full. */
  method AddItem(sketch: FrequentItemsSketch<nat>, lg: nat, p: nat, weight: nat)
    requires sketch.Valid() && sketch.items.lgCur == sketch.items.lgMax == lg && weight > 0
    requires p < sketch.items.slots.Length && sketch.items.slots[p].Free?
    requires Home(sketch.items.hash, p, sketch.items.slots.Length) == p
    requires sketch.items.numActive < Capacity(lg)
    modifies sketch, sketch.items, sketch.items.slots
    ensures sketch.Valid() && sketch.items.lgCur == sketch.items.lgMax == lg && sketch.leastLgMax == old(sketch.leastLgMax)
    ensures sketch.items.slots == old(sketch.items.slots)
    ensures sketch.items.slots[..] == old(sketch.items.slots[..])[p := Held(p, weight, 1)]
    ensures sketch.items.numActive == old(sketch.items.numActive) + 1
    ensures sketch.offset == old(sketch.offset) && sketch.totalWeight == old(sketch.totalWeight) + weight
    ensures sketch.truth == Adjust(old(sketch.truth), p, weight)
  {
    EntryCount(sketch);
    hide FrequentItemsSketch.Valid, Settled, Capacity, Adjust, Home, IsMiddle, ShortRuns, Values;
    ghost var contents, offset := sketch.items.contents, sketch.offset;
    var ok := sketch.Update(p, weight);
    SettledInPlace(contents, p, weight, lg, sketch.items.contents, sketch.offset - offset, sketch.items.lgCur);
  }

  lemma EntryCount(sketch: FrequentItemsSketch<nat>)
    requires sketch.Valid()
    ensures sketch.items.numActive == |sketch.items.contents|
  {
    hide ReversePurgeHashMap.Valid;
    MapSize(sketch.items);
  }

  method Start(lg: nat) returns (sketch: FrequentItemsSketch<nat>)
    requires lg > 10
    ensures fresh(sketch) && fresh(sketch.items) && fresh(sketch.items.slots) && Reached(sketch, lg, 0)
  {
    hide FrequentItemsSketch.Valid, IsLayout, Pow2;
    sketch := new FrequentItemsSketch<nat>(lg, lg, x => x);
    EmptyLayout(sketch.items.slots[..], sketch.items.slots.Length);
    EmptyCount(sketch);
  }

  lemma EmptyCount(sketch: FrequentItemsSketch<nat>)
    requires sketch.Valid() && sketch.items.contents == map[]
    ensures sketch.items.numActive == 0
  {
    EntryCount(sketch);
  }

  /** For every larger map there is a stream whose error exceeds epsilon times its weight. */
  method ExceedEpsilon(lg: nat) returns (sketch: FrequentItemsSketch<nat>)
    requires lg > 10
    ensures sketch.Valid() && sketch.items.lgMax == sketch.leastLgMax == lg && !WithinEpsilon(sketch)
    ensures IsWholeStream(sketch.truth, Pow2(lg))
  {
    hide Reached, Pow2, WithinEpsilon, FrequentItemsSketch.Valid, Capacity, SampleSize, Rank, IsWholeStream;
    Sizes(lg);
    var n: nat := Pow2(lg);
    sketch := Start(lg);
    for p := 0 to n - 1
      invariant fresh(sketch) && fresh(sketch.items) && fresh(sketch.items.slots)
      invariant Reached(sketch, lg, p)
    {
      hide Reached, Pow2, WithinEpsilon, FrequentItemsSketch.Valid, Capacity, SampleSize, Rank;
      NextItems(sketch, lg, p);
    }
    LastItem(sketch, lg);
  }

  /** The last item makes the map full, and the purge takes 100 off all values. */
  method LastItem(sketch: FrequentItemsSketch<nat>, lg: nat)
    requires lg > 10 && Reached(sketch, lg, Pow2(lg) - 1)
    modifies sketch, sketch.items, sketch.items.slots
    ensures sketch.Valid() && sketch.items.lgMax == sketch.leastLgMax == lg && !WithinEpsilon(sketch)
    ensures IsWholeStream(sketch.truth, Pow2(lg))
  {
    hide FrequentItemsSketch.Valid, Settled, IsLayout, Pow2, Capacity, Adjust, Home, IsMiddle, ShortRuns,
         Values, Rank, TotalOf, IsWithin, Weights, ItemsBefore, IsWholeStream, SampleSize;
    Sizes(lg);
    var n: nat := Pow2(lg);
    ghost var s, truth := sketch.items.slots[..], sketch.truth;
    LastSlot(s, n);
    LastBefore(truth, n);
    OwnHome(sketch.items.hash, n - 1, n);
    LayoutRuns(s, n, 1);
    FullValues(s, n, 1);
    AddLast(sketch, lg, n - 1);
    HeavyMiddle(sketch.offset);
    TooHeavy(lg, sketch.totalWeight);
  }

  /** One item that finds its home free and makes the map full. */
  method AddLast(sketch: FrequentItemsSketch<nat>, lg: nat, p: nat)
    requires sketch.Valid() && sketch.items.lgCur == sketch.items.lgMax == lg && sketch.offset == 0
    requires p < sketch.items.slots.Length && sketch.items.slots[p].Free?
    requires Home(sketch.items.hash, p, sketch.items.slots.Length) == p
    requires sketch.items.numActive == Capacity(lg) && ShortRuns(sketch.items.slots[..][p := Held(p, 1, 1)])
    modifies sketch, sketch.items, sketch.items.slots
    ensures sketch.Valid() && sketch.items.lgMax == lg && sketch.leastLgMax == old(sketch.leastLgMax)
    ensures sketch.totalWeight == old(sketch.totalWeight) + 1
    ensures sketch.truth == Adjust(old(sketch.truth), p, 1)
    ensures var s := old(sketch.items.slots[..])[p := Held(p, 1, 1)];
            SampleSize(lg) <= |Values(s)| && IsMiddle(Values(s)[..SampleSize(lg)], sketch.offset)
  {
    hide FrequentItemsSketch.Valid, Settled, Capacity, Adjust, Home, IsMiddle, ShortRuns, Values,
         SampleSize;
    var ok := sketch.Update(p, 1);
  }

  lemma LastBefore(truth: map<nat, nat>, n: nat)
    requires n > 0 && truth == ItemsBefore(n - 1)
    ensures IsWholeStream(Adjust<nat>(truth, n - 1, 1), n)
  {
  }

  lemma LastSlot(s: seq<Slot<nat>>, n: nat)
    requires n > 0 && IsLayout(s, n, n - 1)
    ensures |s| == n && s[n - 1].Free?
  {
  }

  lemma TooHeavy(lg: nat, totalWeight: nat)
    requires lg > 10 && totalWeight == TotalOf(Rank(Pow2(lg) - 1)) + 1
    ensures !IsWithin(100, lg, totalWeight)
  {
    Sizes(lg);
    FullTotal(Capacity(lg), Pow2(lg));
    hide Pow2, Capacity, Rank, TotalOf, IsWithin;
    WithinExactly(100, lg, totalWeight);
  }

  lemma FullTotal(cap: nat, n: nat)
    requires 4 * cap == 3 * n && n >= 2048
    ensures 4 * (TotalOf(cap) + 1) == 3 * n + 4 * 50689
  {
  }
}
