/** Two ways in which merging frequent-items sketches falls short of what is documented, each for maps
    of every size up to 2^10 slots: a purge can empty the map, and then a merge ignores the sketch;
    and a sketch keeps its own error when it is merged into one that promises a smaller. */
module EmptiedMaps {
  import opened Words
  import opened PurgeMaps
  import opened FrequentItems

  // ----- a stream that empties its map -----

  /** The first items weigh 1, the others 100. */
  function Load(i: nat, light: nat): nat {
    if i < light then 1 else 100
  }

  function Loads(n: nat, light: nat): map<nat, nat> {
    map i: nat | i < n :: Load(i, light)
  }

  function WeightOfLoads(n: nat, light: nat): nat {
    if n <= light then n else light + 100 * (n - light)
  }

  lemma NextLoad(n: nat, light: nat)
    ensures Adjust(Loads(n, light), n, Load(n, light)) == Loads(n + 1, light)
    ensures WeightOfLoads(n + 1, light) == WeightOfLoads(n, light) + Load(n, light)
  {
  }

  lemma {:induction false} LoadsSize(n: nat, light: nat)
    ensures |Loads(n, light)| == n
  {
    if n == 0 {
      assert Loads(0, light) == map[];
    } else {
      LoadsSize(n - 1, light);
      NextLoad(n - 1, light);
      AdjustSize(Loads(n - 1, light), n - 1, Load(n - 1, light));
    }
  }

  lemma LightLoads(n: nat, light: nat)
    requires light <= n
    ensures |AtMost(Loads(n, light), 1)| == light
  {
    LoadsSize(light, light);
    assert AtMost(Loads(n, light), 1) == Loads(light, light).Keys;
    assert |Loads(light, light).Keys| == |Loads(light, light)|;
  }

  /** If fewer than half of the sample are light, its median is heavy, and nothing is heavier. */
  lemma LoadsPurged(n: nat, m: nat, contents: map<nat, nat>)
    requires IsMedian(Loads(n, n / 2), m, n) && contents == Reduced(Loads(n, n / 2), m)
    ensures m == 100 && contents == map[]
  {
    var loads := Loads(n, n / 2);
    var i :| i in loads && loads[i] == m;
    LightLoads(n, n / 2);
  }

  lemma Sizes(lg: nat)
    requires LG_MIN_MAP_SIZE <= lg <= 10
    ensures SampleSize(lg) == Capacity(lg) + 1 >= 7
    ensures Pow2(lg) == 8 * Pow2(lg - 3) && SampleSize(lg) == 6 * Pow2(lg - 3) + 1
  {
    Pow2Mono(lg, 10);
    Pow2Mono(3, lg);
    Pow2Add(3, lg - 3);
    assert Pow2(10) == 1024 && Pow2(3) == 8;
    hide Pow2;
  }

  /** The sketch after the first n items. */
  ghost predicate HoldsLoads(full: FrequentItemsSketch<nat>, lg: nat, n: nat)
    reads full, full.items, full.items.slots
  {
    var s, light := SampleSize(lg), SampleSize(lg) / 2;
    && full.Valid() && full.items.lgMax == full.items.lgCur == full.leastLgMax == lg
    && full.truth == Loads(n, light) && full.totalWeight == WeightOfLoads(n, light)
    && full.items.contents == (if n < s then Loads(n, light) else map[])
    && full.offset == (if n < s then 0 else 100)
  }

  method AddLoad(full: FrequentItemsSketch<nat>, lg: nat, i: nat)
    requires LG_MIN_MAP_SIZE <= lg <= 10 && HoldsLoads(full, lg, i) && i < SampleSize(lg)
    modifies full, full.items, full.items.slots
    ensures HoldsLoads(full, lg, i + 1) && (full.items.slots == old(full.items.slots) || fresh(full.items.slots))
  {
    hide Loads, Load, WeightOfLoads, FrequentItemsSketch.Valid, Settled, Adjust, SampleSize, Home, AtHome;
    var light := SampleSize(lg) / 2;
    NextLoad(i, light);
    LoadPositive(i, light);
    var ok := full.Update(i, Load(i, light));
    LoadsSettled(i + 1, lg, full.items.contents, full.offset - old(full.offset), full.items.lgCur);
  }

  lemma LoadPositive(i: nat, light: nat)
    ensures Load(i, light) > 0
  {
  }

  lemma LoadsSettled(n: nat, lg: nat, contents: map<nat, nat>, purged: nat, lgCur: nat)
    requires LG_MIN_MAP_SIZE <= lg <= 10 && n <= SampleSize(lg)
    requires Settled(Loads(n, SampleSize(lg) / 2), lg, lg, contents, purged, lgCur)
    ensures lgCur == lg
    ensures n < SampleSize(lg) ==> contents == Loads(n, SampleSize(lg) / 2) && purged == 0
    ensures n == SampleSize(lg) ==> contents == map[] && purged == 100
  {
    Sizes(lg);
    LoadsSize(n, SampleSize(lg) / 2);
    hide Loads, Reduced, IsMedian, Capacity, SampleSize;
    if n == SampleSize(lg) {
      LoadsPurged(n, purged, contents);
    }
  }

  /** One item more than the map may hold: the purge leaves nothing but an offset of 100. */
  method PurgedToNothing(lg: nat, hash: nat -> nat) returns (full: FrequentItemsSketch<nat>)
    requires LG_MIN_MAP_SIZE <= lg <= 10
    ensures fresh(full) && fresh(full.items) && fresh(full.items.slots) && full.Valid()
    ensures full.items.lgMax == full.items.lgCur == full.leastLgMax == lg
    ensures full.truth == Loads(SampleSize(lg), SampleSize(lg) / 2)
    ensures full.totalWeight == WeightOfLoads(SampleSize(lg), SampleSize(lg) / 2)
    ensures full.items.contents == map[] && full.offset == 100
  {
    hide HoldsLoads, Loads, FrequentItemsSketch.Valid, SampleSize, WeightOfLoads;
    full := new FrequentItemsSketch<nat>(lg, lg, hash);
    HoldsNone(full, lg);
    for i := 0 to SampleSize(lg)
      invariant fresh(full.items) && fresh(full.items.slots)
      invariant HoldsLoads(full, lg, i)
    {
      hide HoldsLoads, Loads, FrequentItemsSketch.Valid, SampleSize, WeightOfLoads;
      AddLoad(full, lg, i);
    }
    HoldsAll(full, lg);
  }

  lemma HoldsNone(full: FrequentItemsSketch<nat>, lg: nat)
    requires LG_MIN_MAP_SIZE <= lg <= 10 && full.Valid() && full.items.lgMax == full.items.lgCur == full.leastLgMax == lg
    requires full.truth == full.items.contents == map[] && full.totalWeight == 0 && full.offset == 0
    ensures HoldsLoads(full, lg, 0)
  {
    Sizes(lg);
    assert Loads(0, SampleSize(lg) / 2) == map[];
    hide Loads, FrequentItemsSketch.Valid, SampleSize;
  }

  lemma HoldsAll(full: FrequentItemsSketch<nat>, lg: nat)
    requires HoldsLoads(full, lg, SampleSize(lg))
    ensures full.Valid() && full.items.lgMax == full.items.lgCur == full.leastLgMax == lg
    ensures full.truth == Loads(SampleSize(lg), SampleSize(lg) / 2)
    ensures full.totalWeight == WeightOfLoads(SampleSize(lg), SampleSize(lg) / 2)
    ensures full.items.contents == map[] && full.offset == 100
  {
    hide Loads, FrequentItemsSketch.Valid, SampleSize, WeightOfLoads;
  }

  // ----- merged, it is ignored -----

  /** Merging that sketch into one that has never purged changes nothing: the upper bound of each of
      its items is then below the item's weight in both streams. */
  method AllItemsLost(lg: nat, full: FrequentItemsSketch<nat>, into: FrequentItemsSketch<nat>, item: nat)
    returns (upperBound: nat)
    requires LG_MIN_MAP_SIZE <= lg <= 10 && full.Valid() && full.items.lgMax == lg && full.items.contents == map[]
    requires full.truth == Loads(SampleSize(lg), SampleSize(lg) / 2) && item in full.truth
    requires into.Valid() && into.offset == 0
    requires into != full && into.items != full.items && into.items.slots != full.items.slots
    modifies into, into.items, into.items.slots
    ensures into.Valid() && into.truth == old(into.truth) && into.totalWeight == old(into.totalWeight)
    ensures into.items.contents == old(into.items.contents) && into.offset == 0
    ensures upperBound == Get(old(into.truth), item) < Get(Combined(old(into.truth), full.truth), item)
  {
    hide FrequentItemsSketch.Valid, SampleSize;
    var ok := into.Merge(full);
    upperBound := into.GetUpperBound(item);
  }

  // ----- merged, its error is too large -----

  /** One more item gives that sketch an entry. */
  method OneEntry(lg: nat, hash: nat -> nat) returns (full: FrequentItemsSketch<nat>)
    requires LG_MIN_MAP_SIZE <= lg <= 10
    ensures fresh(full) && fresh(full.items) && fresh(full.items.slots) && full.Valid()
    ensures full.items.lgMax == full.leastLgMax == lg && full.offset == 100
    ensures full.truth == Adjust(Loads(SampleSize(lg), SampleSize(lg) / 2), SampleSize(lg), 1)
    ensures full.totalWeight == WeightOfLoads(SampleSize(lg), SampleSize(lg) / 2) + 1
    ensures full.items.contents == map[SampleSize(lg) := 1]
  {
    hide FrequentItemsSketch.Valid, Settled, Adjust, Loads, Home, AtHome, WeightOfLoads, SampleSize;
    full := PurgedToNothing(lg, hash);
    var ok := full.Update(SampleSize(lg), 1);
    OneSettled(SampleSize(lg), lg, full.items.contents, full.offset - 100, full.items.lgCur);
  }

  /** Merging that sketch into an empty one of any larger maximum size purges nothing, but the error is
      then above epsilon times the weight. */
  method MergeExceedsEpsilon(lg: nat, full: FrequentItemsSketch<nat>, into: FrequentItemsSketch<nat>)
    requires LG_MIN_MAP_SIZE <= lg <= 10 && full.Valid() && full.items.lgMax == full.leastLgMax == lg && full.offset == 100
    requires full.truth == Adjust(Loads(SampleSize(lg), SampleSize(lg) / 2), SampleSize(lg), 1)
    requires full.totalWeight == WeightOfLoads(SampleSize(lg), SampleSize(lg) / 2) + 1
    requires full.items.contents == map[SampleSize(lg) := 1]
    requires into.Valid() && into.truth == into.items.contents == map[] && into.offset == 0 && into.totalWeight == 0
    requires into.items.lgMax == into.leastLgMax > lg
    requires into != full && into.items != full.items && into.items.slots != full.items.slots
    modifies into, into.items, into.items.slots
    ensures into.Valid() && into.items.lgMax == old(into.items.lgMax) && into.leastLgMax == lg
    ensures into.truth == Combined(old(into.truth), full.truth) && into.totalWeight == full.totalWeight
    ensures into.offset == 100 && !WithinEpsilon(into)
  {
    hide FrequentItemsSketch.Valid, Adjust, Loads, Combined, WeightOfLoads, SampleSize, WithinEpsilon, Capacity;
    OneFits(into.items.contents, full.items.contents, SampleSize(lg), into.items.lgMax);
    var ok := into.Merge(full);
    LightForError(lg, into.items.lgMax);
    TooMuch(into, into.items.lgMax);
  }

  lemma OneSettled(key: nat, lg: nat, contents: map<nat, nat>, purged: nat, lgCur: nat)
    requires LG_MIN_MAP_SIZE <= lg && Settled(Adjust(map[], key, 1), lg, lg, contents, purged, lgCur)
    ensures contents == map[key := 1] && purged == 0
  {
    CapacityFits(lg);
    hide Capacity;
    assert Adjust(map[], key, 1) == map[key := 1];
  }

  lemma OneFits(contents0: map<nat, nat>, contents: map<nat, nat>, key: nat, lg: nat)
    requires contents0 == map[] && contents == map[key := 1] && LG_MIN_MAP_SIZE <= lg
    ensures |contents| == 1 && contents != map[] && |contents0.Keys + contents.Keys| <= Capacity(lg)
  {
    CapacityFits(lg);
    hide Capacity;
    assert contents0.Keys + contents.Keys == {key};
    assert key in contents;
  }

  lemma LightForError(lg: nat, lgInto: nat)
    requires LG_MIN_MAP_SIZE <= lg <= 10 && lg < lgInto
    ensures 7 * (WeightOfLoads(SampleSize(lg), SampleSize(lg) / 2) + 1) < 200 * Pow2(lgInto)
  {
    Sizes(lg);
    Pow2Mono(lg + 1, lgInto);
    assert Pow2(lg + 1) == 2 * Pow2(lg);
    hide Pow2, SampleSize;
  }

  lemma TooMuch(sketch: FrequentItemsSketch<nat>, lg: nat)
    requires sketch.items.lgMax == lg && sketch.offset == 100 && 7 * sketch.totalWeight < 200 * Pow2(lg)
    ensures !WithinEpsilon(sketch)
  {
    hide Pow2, IsWithin;
    WithinExactly(100, lg, sketch.totalWeight);
  }
}
