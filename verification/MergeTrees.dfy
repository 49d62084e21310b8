/** Whole histories of frequent-items sketches: any tree of updates and merges, over maps of any
    sizes, and what its sketch says about the stream of all its items. */
module MergeTrees {
  import opened Words
  import opened CpcUtil
  import opened PurgeMaps
  import opened FrequentItems

  /** How a sketch came about. */
  datatype Tree<K> =
    | Fresh(lgMax: nat, lgStart: nat)
    | Fed(before: Tree<K>, item: K, weight: nat)
    | Joined(into: Tree<K>, from: Tree<K>)

  /** All that the tree's updates have brought in, by item. */
  ghost function StreamOf<K>(tree: Tree<K>): map<K, nat> {
    match tree
    case Fresh(_, _) => map[]
    case Fed(before, item, weight) => Weighed(StreamOf(before), item, weight)
    case Joined(into, from) => Combined(StreamOf(into), StreamOf(from))
  }

  function Clipped(lg: nat): nat {
    if lg < LG_MIN_MAP_SIZE then LG_MIN_MAP_SIZE else lg
  }

  /** The lg_max_map_size of the tree's sketch. */
  function LgMaxOf<K>(tree: Tree<K>): nat {
    match tree
    case Fresh(lgMax, _) => Clipped(lgMax)
    case Fed(before, _, _) => LgMaxOf(before)
    case Joined(into, _) => LgMaxOf(into)
  }

  /** The smallest and the largest lg_max_map_size in the tree. */
  function LeastLg<K>(tree: Tree<K>): (lg: nat)
    ensures LG_MIN_MAP_SIZE <= lg <= LgMaxOf(tree)
  {
    match tree
    case Fresh(lgMax, _) => Clipped(lgMax)
    case Fed(before, _, _) => LeastLg(before)
    case Joined(into, from) => if LeastLg(into) <= LeastLg(from) then LeastLg(into) else LeastLg(from)
  }

  function MostLg<K>(tree: Tree<K>): (lg: nat)
    ensures lg >= LgMaxOf(tree)
  {
    match tree
    case Fresh(lgMax, _) => Clipped(lgMax)
    case Fed(before, _, _) => MostLg(before)
    case Joined(into, from) => if MostLg(into) >= MostLg(from) then MostLg(into) else MostLg(from)
  }

  /** No sketch of the tree is refused for a starting size above its maximum. */
  predicate Admissible<K>(tree: Tree<K>) {
    match tree
    case Fresh(lgMax, lgStart) => lgStart <= lgMax
    case Fed(before, _, _) => Admissible(before)
    case Joined(into, from) => Admissible(into) && Admissible(from)
  }

  // ----- one stream within another -----

  ghost predicate Below<K>(a: map<K, nat>, b: map<K, nat>) {
    forall key | key in a :: key in b && a[key] <= b[key]
  }

  lemma BelowWeighed<K>(a: map<K, nat>, b: map<K, nat>, item: K, weight: nat)
    requires Below(a, b)
    ensures Below(Weighed(a, item, weight), Weighed(b, item, weight))
  {
  }

  lemma BelowCombined<K>(a: map<K, nat>, b: map<K, nat>, a2: map<K, nat>, b2: map<K, nat>)
    requires Below(a, b)
    ensures Below(a, Combined(b, b2))
    ensures Below(a2, b2) ==> Below(Combined(a, a2), Combined(b, b2))
  {
  }

  lemma {:induction false} BelowSum<K>(a: map<K, nat>, b: map<K, nat>)
    requires Below(a, b) && Positive(b)
    ensures Sum(a) <= Sum(b)
    ensures Sum(a) == Sum(b) ==> a == b
    decreases |b|
  {
    if b.Keys == {} {
      assert a == b;
    } else {
      hide Sum, Below, Positive;
      var key := AnyKey(b);
      OneFewer(b, key);
      WithoutOne(a, b, key);
      BelowSum(a - {key}, b - {key});
      SumWithout(b, key);
      if key in a {
        SumWithout(a, key);
        RestAndKey(a, b, key);
      }
    }
  }

  lemma WithoutOne<K>(a: map<K, nat>, b: map<K, nat>, key: K)
    requires Below(a, b) && Positive(b) && key in b
    ensures Below(a - {key}, b - {key}) && Positive(b - {key}) && b[key] > 0
    ensures if key in a then a[key] <= b[key] else a - {key} == a
  {
  }

  lemma RestAndKey<K>(a: map<K, nat>, b: map<K, nat>, key: K)
    requires key in a && key in b
    ensures a - {key} == b - {key} && a[key] == b[key] ==> a == b
  {
    if a - {key} == b - {key} && a[key] == b[key] {
      assert a == (a - {key})[key := a[key]];
      assert b == (b - {key})[key := b[key]];
    }
  }

  lemma {:induction false} StreamPositive<K>(tree: Tree<K>)
    ensures Positive(StreamOf(tree))
  {
    match tree
    case Fresh(_, _) =>
    case Fed(before, _, _) =>
      StreamPositive(before);
    case Joined(into, from) =>
      StreamPositive(into);
      StreamPositive(from);
      PositiveCombined(StreamOf(into), StreamOf(from));
  }

  // ----- every tree -----

  /** The sketch has come about in the way of the tree. */
  ghost predicate Grown<K>(sketch: FrequentItemsSketch<K>, tree: Tree<K>)
    reads sketch, sketch.items, sketch.items.slots
  {
    && sketch.Valid() && sketch.items.lgMax == LgMaxOf(tree) && sketch.leastLgMax >= LeastLg(tree)
    && Below(sketch.truth, StreamOf(tree))
  }

  /** No more keys in the whole stream than the smallest map may hold. */
  ghost predicate FewKeys<K>(tree: Tree<K>) {
    |StreamOf(tree).Keys| <= Capacity(LeastLg(tree))
  }

  /** Whatever is merged in has few keys. */
  ghost predicate SafeJoins<K>(tree: Tree<K>) {
    match tree
    case Fresh(_, _) => true
    case Fed(before, _, _) => SafeJoins(before)
    case Joined(into, from) => SafeJoins(into) && SafeJoins(from) && FewKeys(from)
  }

  /** Weight has been lost or not, and has not if nothing can have been purged before a merge. Few keys
      are counted exactly. */
  ghost predicate Counted<K>(sketch: FrequentItemsSketch<K>, tree: Tree<K>, lost: bool)
    reads sketch, sketch.items
  {
    && (lost <==> sketch.totalWeight < Sum(StreamOf(tree)))
    && (SafeJoins(tree) ==> !lost)
    && (FewKeys(tree) ==> sketch.items.contents == StreamOf(tree) && sketch.offset == 0)
  }

  method Feed<K(==)>(sketch: FrequentItemsSketch<K>, ghost before: Tree<K>, item: K, weight: nat, ghost lost: bool)
    returns (ok: bool)
    requires Grown(sketch, before) && Counted(sketch, before, lost)
    modifies sketch, sketch.items, sketch.items.slots
    ensures LgMaxOf(before) <= 10 ==> ok
    ensures ok ==> Grown(sketch, Fed(before, item, weight)) && Counted(sketch, Fed(before, item, weight), lost)
    ensures ok ==> sketch.items.slots == old(sketch.items.slots) || fresh(sketch.items.slots)
  {
    hide FrequentItemsSketch.Valid, Below, Weighed, Settled, Adjust, Home, AtHome, Capacity, Counted, Sum, StreamOf,
         FewKeys, SafeJoins;
    StreamOfFed(before, item, weight);
    BelowWeighed(sketch.truth, StreamOf(before), item, weight);
    sketch.SizesInOrder();
    CountedParts(sketch, before, lost);
    ghost var contents, offset, lgCur, totalWeight :=
      sketch.items.contents, sketch.offset, sketch.items.lgCur, sketch.totalWeight;
    ok := sketch.Update(item, weight);
    if ok {
      FedCounted(before, item, weight, sketch, contents, offset, lgCur, totalWeight, lost);
    }
  }

  method Join<K(==)>(sketch: FrequentItemsSketch<K>, other: FrequentItemsSketch<K>, ghost into: Tree<K>, ghost from: Tree<K>,
                     ghost lost: bool, ghost otherLost: bool) returns (ok: bool, ghost lost': bool)
    requires Grown(sketch, into) && Counted(sketch, into, lost) && Grown(other, from) && Counted(other, from, otherLost)
    requires sketch != other && sketch.items != other.items && sketch.items.slots != other.items.slots
    modifies sketch, sketch.items, sketch.items.slots
    ensures LgMaxOf(into) <= 10 ==> ok
    ensures lost' <==> lost || otherLost || (other.items.contents == map[] && other.offset > 0)
    ensures ok ==> Grown(sketch, Joined(into, from)) && Counted(sketch, Joined(into, from), lost')
    ensures ok ==> sketch.items.slots == old(sketch.items.slots) || fresh(sketch.items.slots)
  {
    hide FrequentItemsSketch.Valid, Below, Combined, Capacity, Counted, Sum, StreamOf, FewKeys, SafeJoins;
    StreamOfJoined(into, from);
    BelowCombined(sketch.truth, StreamOf(into), other.truth, StreamOf(from));
    EmptyMap(other);
    CountedParts(sketch, into, lost);
    TotalAtMost(sketch, into);
    TotalAtMost(other, from);
    ghost var contents, offset, totalWeight := sketch.items.contents, sketch.offset, sketch.totalWeight;
    lost' := lost || otherLost || (other.items.contents == map[] && other.offset > 0);
    ok := sketch.Merge(other);
    if ok {
      JoinedCounted(into, from, sketch, other, contents, offset, totalWeight, lost, otherLost);
    }
  }

  /** Carries out a tree of updates and merges; not if it meets an exception, which needs a starting size
      above the maximum, or a map of more than 2^10 slots. The ghost flag says whether some merge has
      taken a sketch for empty that had an offset. */
  method Build<K(==)>(tree: Tree<K>, hash: K -> nat) returns (sketch: Option<FrequentItemsSketch<K>>, ghost lost: bool)
    ensures Admissible(tree) && MostLg(tree) <= 10 ==> sketch.Some?
    ensures sketch.Some? ==> Admissible(tree)
    ensures sketch.Some? ==>
              var s := sketch.value; fresh(s) && fresh(s.items) && fresh(s.items.slots) && Grown(s, tree)
    ensures sketch.Some? ==> Counted(sketch.value, tree, lost)
    decreases tree
  {
    hide FrequentItemsSketch.Valid, Below, Counted, StreamOf, FewKeys, SafeJoins;
    match tree
    case Fresh(lgMax, lgStart) =>
      sketch := FrequentItemsSketch<K>.Make(lgMax, lgStart, hash);
      lost := false;
      NothingCounted(tree);
      if sketch.Some? {
        FreshCounted(sketch.value, tree);
      }
    case Fed(before, item, weight) =>
      sketch, lost := Build(before, hash);
      if sketch.Some? {
        hide Grown;
        var ok := Feed(sketch.value, before, item, weight, lost);
        if !ok {
          sketch := None;
        }
      }
    case Joined(into, from) =>
      sketch, lost := Build(into, hash);
      var other;
      ghost var otherLost;
      other, otherLost := Build(from, hash);
      if sketch.None? || other.None? {
        sketch := None;
      } else {
        hide Grown;
        var ok;
        ok, lost := Join(sketch.value, other.value, into, from, lost, otherLost);
        if !ok {
          sketch := None;
        }
      }
  }

  lemma CountedParts<K>(sketch: FrequentItemsSketch<K>, tree: Tree<K>, lost: bool)
    requires Counted(sketch, tree, lost)
    ensures lost <==> sketch.totalWeight < Sum(StreamOf(tree))
    ensures SafeJoins(tree) ==> !lost
    ensures FewKeys(tree) ==> sketch.items.contents == StreamOf(tree) && sketch.offset == 0
  {
  }

  lemma NothingCounted<K>(tree: Tree<K>)
    requires tree.Fresh?
    ensures StreamOf(tree) == map[] && Below(map[], StreamOf(tree))
  {
  }

  lemma FreshCounted<K>(sketch: FrequentItemsSketch<K>, tree: Tree<K>)
    requires tree.Fresh? && sketch.Valid() && sketch.truth == map[]
    requires sketch.items.contents == map[] && sketch.offset == 0
    ensures Counted(sketch, tree, false)
  {
    EmptySketch<K>(0);
    hide ReversePurgeHashMap.Valid, Capacity;
  }

  lemma StreamOfFed<K>(before: Tree<K>, item: K, weight: nat)
    ensures StreamOf(Fed(before, item, weight)) == Weighed(StreamOf(before), item, weight)
  {
  }

  lemma StreamOfJoined<K>(into: Tree<K>, from: Tree<K>)
    ensures StreamOf(Joined(into, from)) == Combined(StreamOf(into), StreamOf(from))
  {
  }

  lemma FedCounted<K>(before: Tree<K>, item: K, weight: nat, sketch: FrequentItemsSketch<K>, contents: map<K, nat>,
                      offset: nat, lgCur: nat, totalWeight: nat, lost: bool)
    requires lost <==> totalWeight < Sum(StreamOf(before))
    requires SafeJoins(before) ==> !lost
    requires FewKeys(before) ==> contents == StreamOf(before) && offset == 0
    requires sketch.totalWeight == totalWeight + weight && sketch.offset >= offset
    requires if weight == 0 then sketch.items.contents == contents && sketch.offset == offset
             else Settled(Adjust(contents, item, weight), lgCur, sketch.items.lgMax, sketch.items.contents,
                          sketch.offset - offset, sketch.items.lgCur)
    requires lgCur <= sketch.items.lgMax == LgMaxOf(before)
    ensures Counted(sketch, Fed(before, item, weight), lost)
  {
    var tree := Fed(before, item, weight);
    StreamOfFed(before, item, weight);
    if weight > 0 {
      SumAdjust(StreamOf(before), item, weight);
    }
    KeysOfFed(before, item, weight);
    CapacityMono(LeastLg(before), LgMaxOf(before));
    hide Sum, StreamOf, Capacity, Adjust, Settled, LeastLg, LgMaxOf;
    if FewKeys(tree) && weight > 0 {
      SettledSize(contents, item, weight, lgCur, sketch.items.lgMax, sketch.items.contents, sketch.offset - offset,
                  sketch.items.lgCur);
    }
  }

  lemma KeysOfFed<K>(before: Tree<K>, item: K, weight: nat)
    ensures var tree := Fed(before, item, weight);
            && LeastLg(tree) == LeastLg(before) && |StreamOf(before).Keys| <= |StreamOf(tree).Keys|
            && (weight > 0 ==> StreamOf(tree).Keys == StreamOf(before).Keys + {item})
  {
    KeysSubset(StreamOf(before).Keys, StreamOf(Fed(before, item, weight)).Keys);
  }

  lemma CapacityMono(lg: nat, lg2: nat)
    requires lg <= lg2
    ensures Capacity(lg) <= Capacity(lg2)
  {
    Pow2Mono(lg, lg2);
  }

  lemma EmptyMap<K>(sketch: FrequentItemsSketch<K>)
    requires sketch.Valid()
    ensures sketch.items.contents == map[] ==> (sketch.totalWeight == 0 <==> sketch.offset == 0)
  {
    hide FrequentItemsSketch.Valid;
    if sketch.items.contents == map[] {
      EmptyMapWithWeight(sketch);
    }
  }

  lemma TotalAtMost<K>(sketch: FrequentItemsSketch<K>, tree: Tree<K>)
    requires Grown(sketch, tree)
    ensures sketch.totalWeight <= Sum(StreamOf(tree))
  {
    hide IsWithin, Bounds;
    TreeBounds(sketch, tree);
  }

  lemma JoinedCounted<K>(into: Tree<K>, from: Tree<K>, sketch: FrequentItemsSketch<K>, other: FrequentItemsSketch<K>,
                         contents: map<K, nat>, offset: nat, totalWeight: nat, lost: bool, otherLost: bool)
    requires lost <==> totalWeight < Sum(StreamOf(into))
    requires SafeJoins(into) ==> !lost
    requires FewKeys(into) ==> contents == StreamOf(into) && offset == 0
    requires totalWeight <= Sum(StreamOf(into)) && other.totalWeight <= Sum(StreamOf(from))
    requires Counted(other, from, otherLost)
    requires other.items.contents == map[] ==> (other.totalWeight == 0 <==> other.offset == 0)
    requires if other.items.contents == map[]
             then sketch.totalWeight == totalWeight && sketch.offset == offset && sketch.items.contents == contents
             else && sketch.totalWeight == totalWeight + other.totalWeight
                  && (|contents.Keys + other.items.contents.Keys| <= Capacity(sketch.items.lgMax) ==>
                        sketch.offset == offset + other.offset
                        && sketch.items.contents == Combined(contents, other.items.contents))
    requires sketch.items.lgMax == LgMaxOf(into)
    ensures Counted(sketch, Joined(into, from), lost || otherLost || (other.items.contents == map[] && other.offset > 0))
  {
    StreamOfJoined(into, from);
    SumCombined(StreamOf(into), StreamOf(from));
    KeysOfJoined(into, from);
    CapacityMono(LeastLg(into), LgMaxOf(into));
    CapacityMono(LeastLg(Joined(into, from)), LeastLg(into));
    CapacityMono(LeastLg(Joined(into, from)), LeastLg(from));
    CombinedEmpty(StreamOf(into), StreamOf(from));
    hide Sum, StreamOf, Capacity, Combined, LeastLg, LgMaxOf;
  }

  lemma CombinedEmpty<K>(a: map<K, nat>, b: map<K, nat>)
    ensures b == map[] ==> Combined(a, b) == a
  {
  }

  lemma KeysOfJoined<K>(into: Tree<K>, from: Tree<K>)
    ensures var keys := StreamOf(Joined(into, from)).Keys;
            && keys == StreamOf(into).Keys + StreamOf(from).Keys
            && |StreamOf(into).Keys| <= |keys| && |StreamOf(from).Keys| <= |keys|
  {
    hide StreamOf, Combined;
    StreamOfJoined(into, from);
    CombinedKeys(StreamOf(into), StreamOf(from));
    KeysSubset(StreamOf(into).Keys, StreamOf(Joined(into, from)).Keys);
    KeysSubset(StreamOf(from).Keys, StreamOf(Joined(into, from)).Keys);
  }

  lemma CombinedKeys<K>(a: map<K, nat>, b: map<K, nat>)
    ensures Combined(a, b).Keys == a.Keys + b.Keys
  {
  }

  /** The total weight is that of the whole stream exactly if no merge has lost anything, and then all
      bounds hold for the whole stream; lower bounds and the error bound hold in any case. */
  lemma TreeBounds<K>(sketch: FrequentItemsSketch<K>, tree: Tree<K>)
    requires Grown(sketch, tree)
    ensures sketch.totalWeight <= Sum(StreamOf(tree))
    ensures sketch.totalWeight == Sum(StreamOf(tree)) <==> sketch.truth == StreamOf(tree)
    ensures sketch.totalWeight == Sum(StreamOf(tree)) ==> Bounds(sketch.items.contents, sketch.offset, StreamOf(tree))
    ensures forall item | item in sketch.items.contents :: sketch.items.contents[item] <= Get(StreamOf(tree), item)
    ensures LeastLg(tree) <= 10 ==> IsWithin(sketch.GetMaximumError(), LeastLg(tree), sketch.totalWeight)
    ensures LeastLg(tree) > 10 ==> 512 * sketch.GetMaximumError() <= sketch.totalWeight
  {
    hide Sum, ReversePurgeHashMap.Valid, HalfSample, IsWithin;
    StreamPositive(tree);
    BelowSum(sketch.truth, StreamOf(tree));
    hide StreamOf, Positive;
    HalfSampleMono(LeastLg(tree), sketch.leastLgMax);
    AccountedForLess(sketch.items.contents, sketch.offset, sketch.totalWeight, HalfSample(sketch.leastLgMax),
                     HalfSample(LeastLg(tree)));
    hide Accounted;
    MaximumError(sketch.items.contents, sketch.offset, sketch.totalWeight, LeastLg(tree));
    forall item | item in sketch.items.contents ensures sketch.items.contents[item] <= Get(StreamOf(tree), item) {
      BoundsAt(sketch.items.contents, sketch.offset, sketch.truth, item);
    }
  }

  /** What `Build` and these bounds say together: as long as no merge takes an empty map with an offset,
      the sketch is one of the whole stream. */
  lemma NothingLost<K>(sketch: FrequentItemsSketch<K>, tree: Tree<K>, lost: bool)
    requires Grown(sketch, tree) && Counted(sketch, tree, lost)
    ensures lost <==> sketch.truth != StreamOf(tree)
    ensures SafeJoins(tree) ==> sketch.truth == StreamOf(tree)
  {
    TreeBounds(sketch, tree);
    hide Sum, StreamOf, FewKeys, SafeJoins, FrequentItemsSketch.Valid;
  }
}
