/** The frequent-items sketch: guaranteed bounds on every item's weight, kept through updates, purges
    and merges (fi/include/frequent_items_sketch.hpp and frequent_items_sketch_impl.hpp). */
module FrequentItems {
  import opened Words
  import opened CpcUtil
  import opened PurgeMaps

  // ----- weights -----

  /** All weight of two streams. */
  ghost function Combined<K>(a: map<K, nat>, b: map<K, nat>): map<K, nat> {
    map key | key in a.Keys + b.Keys :: Get(a, key) + Get(b, key)
  }

  lemma CombinedNothing<K>(a: map<K, nat>, b: map<K, nat>)
    requires b.Keys == {}
    ensures Combined(a, b) == a
  {
  }

  lemma CombinedNext<K>(a: map<K, nat>, b: map<K, nat>, key: K, value: nat)
    requires key !in b
    ensures Combined(a, b[key := value]) == Adjust(Combined(a, b), key, value)
  {
  }

  lemma SumAdjust<K>(a: map<K, nat>, key: K, value: nat)
    ensures Sum(Adjust(a, key, value)) == Sum(a) + value
  {
    SumUpdate(a, key, Get(a, key) + value);
  }

  lemma CombinedLast<K>(a: map<K, nat>, b: map<K, nat>, key: K)
    requires key in b
    ensures Combined(a, b) == Adjust(Combined(a, b - {key}), key, b[key])
  {
    CombinedNext(a, b - {key}, key, b[key]);
    assert (b - {key})[key := b[key]] == b;
    hide Combined, Adjust;
  }

  lemma {:induction false} SumCombined<K>(a: map<K, nat>, b: map<K, nat>)
    ensures Sum(Combined(a, b)) == Sum(a) + Sum(b)
    decreases |b|
  {
    if b.Keys == {} {
      CombinedNothing(a, b);
    } else {
      var key := AnyKey(b);
      OneFewer(b, key);
      SumCombined(a, b - {key});
      hide Sum, Combined, Adjust;
      SumWithout(b, key);
      CombinedLast(a, b, key);
      SumAdjust(Combined(a, b - {key}), key, b[key]);
    }
  }

  lemma {:induction false} SumOfNothing<K>(a: map<K, nat>)
    requires forall key | key in a :: a[key] == 0
    ensures Sum(a) == 0
    decreases |a|
  {
    if a.Keys != {} {
      var key := AnyKey(a);
      OneFewer(a, key);
      SumOfNothing(a - {key});
    }
  }

  // ----- bounds -----

  /** Every item's weight lies between its value in the map and that plus the offset. */
  ghost predicate Bounds<K>(contents: map<K, nat>, offset: nat, truth: map<K, nat>) {
    forall key | key in contents.Keys + truth.Keys ::
      Get(contents, key) <= Get(truth, key) <= Get(contents, key) + offset
  }

  ghost predicate Positive<K>(contents: map<K, nat>) {
    forall key | key in contents :: contents[key] > 0
  }

  lemma PositiveCombined<K>(a: map<K, nat>, b: map<K, nat>)
    requires Positive(a) && Positive(b)
    ensures Positive(Combined(a, b))
  {
  }

  lemma PositiveAt<K>(contents: map<K, nat>, key: K)
    requires Positive(contents) && key in contents
    ensures contents[key] > 0
  {
  }

  lemma BoundsAt<K>(contents: map<K, nat>, offset: nat, truth: map<K, nat>, key: K)
    requires Bounds(contents, offset, truth)
    ensures Get(contents, key) <= Get(truth, key) <= Get(contents, key) + offset
  {
  }

  lemma BoundsAdjusted<K>(contents: map<K, nat>, offset: nat, truth: map<K, nat>, key: K, weight: nat)
    requires Bounds(contents, offset, truth)
    ensures Bounds(Adjust(contents, key, weight), offset, Adjust(truth, key, weight))
    ensures Positive(contents) && weight > 0 ==> Positive(Adjust(contents, key, weight))
    ensures Positive(truth) && weight > 0 ==> Positive(Adjust(truth, key, weight))
  {
    var contents', truth' := Adjust(contents, key, weight), Adjust(truth, key, weight);
    forall k | k in contents' || k in truth' ensures Get(contents', k) <= Get(truth', k) <= Get(contents', k) + offset {
      BoundsAt(contents, offset, truth, k);
    }
  }

  /** What a purge takes off every value it adds to the offset. */
  lemma BoundsReduced<K>(contents: map<K, nat>, offset: nat, truth: map<K, nat>, amount: nat)
    requires Bounds(contents, offset, truth)
    ensures Bounds(Reduced(contents, amount), offset + amount, truth)
  {
    forall k | k in truth || k in Reduced(contents, amount)
      ensures Get(Reduced(contents, amount), k) <= Get(truth, k) <= Get(Reduced(contents, amount), k) + (offset + amount)
    {
      BoundsAt(contents, offset, truth, k);
    }
  }

  /** The other stream's weights are its values plus at most its offset. */
  lemma BoundsCombined<K>(contents: map<K, nat>, offset: nat, truth: map<K, nat>, contents2: map<K, nat>, offset2: nat,
                          truth2: map<K, nat>)
    requires Bounds(contents, offset, Combined(truth, contents2)) && Bounds(contents2, offset2, truth2)
    ensures Bounds(contents, offset + offset2, Combined(truth, truth2))
  {
    forall k | k in contents || k in Combined(truth, truth2)
      ensures Get(contents, k) <= Get(Combined(truth, truth2), k) <= Get(contents, k) + (offset + offset2)
    {
      BoundsAt(contents, offset, Combined(truth, contents2), k);
      BoundsAt(contents2, offset2, truth2, k);
    }
  }

  // ----- the error bound -----

  /** A purge takes its median off at least this many values. */
  function HalfSample(lg: nat): nat {
    SampleSize(lg) - SampleSize(lg) / 2
  }

  /** The potential: what is still in the map, and what purges have taken off at least HalfSample
      values at a time, never exceed the weight of the stream. */
  ghost predicate Accounted<K>(contents: map<K, nat>, offset: nat, totalWeight: nat, half: nat) {
    Sum(contents) + offset * half <= totalWeight
  }

  lemma HalfSampleMono(lg: nat, lg2: nat)
    requires LG_MIN_MAP_SIZE <= lg <= lg2
    ensures HalfSample(lg) <= HalfSample(lg2)
  {
    Pow2Mono(lg, lg2);
  }

  lemma AccountedForLess<K>(contents: map<K, nat>, offset: nat, totalWeight: nat, half: nat, less: nat)
    requires Accounted(contents, offset, totalWeight, half) && less <= half
    ensures Accounted(contents, offset, totalWeight, less)
  {
    hide Sum;
    MulMono(offset, less, half);
  }

  lemma AccountedSettled<K>(all: map<K, nat>, lgCur0: nat, lgMax: nat, contents: map<K, nat>, purged: nat, lgCur: nat,
                            offset: nat, totalWeight: nat, half: nat)
    requires Settled(all, lgCur0, lgMax, contents, purged, lgCur)
    requires Accounted(all, offset, totalWeight, half) && half <= HalfSample(lgMax)
    ensures Accounted(contents, offset + purged, totalWeight, half)
  {
    ReducedSum(all, purged);
    hide Sum, Reduced, AtLeast, AtMost, SampleSize;
    assert (offset + purged) * half == offset * half + purged * half;
    if contents == Reduced(all, purged) && |AtLeast(all, purged)| >= half {
      MulMono(purged, half, |AtLeast(all, purged)|);
    }
  }

  lemma BoundsSettled<K>(all: map<K, nat>, lgCur0: nat, lgMax: nat, contents: map<K, nat>, purged: nat, lgCur: nat,
                         offset: nat, truth: map<K, nat>)
    requires Settled(all, lgCur0, lgMax, contents, purged, lgCur) && Bounds(all, offset, truth) && Positive(all)
    ensures Bounds(contents, offset + purged, truth) && Positive(contents)
  {
    BoundsReduced(all, offset, truth, purged);
    hide Bounds, IsMedian;
  }

  /** Merging adds both accounts, as far as the purges of both were thorough. */
  lemma AccountedMerged<K>(contents: map<K, nat>, offset: nat, weight: nat, lg: nat, contents2: map<K, nat>, offset2: nat,
                           weight2: nat, lg2: nat)
    requires LG_MIN_MAP_SIZE <= lg && LG_MIN_MAP_SIZE <= lg2
    requires Accounted(contents, offset, weight + Sum(contents2), HalfSample(lg))
    requires Accounted(contents2, offset2, weight2, HalfSample(lg2))
    ensures Accounted(contents, offset + offset2, weight + weight2, HalfSample(if lg <= lg2 then lg else lg2))
  {
    hide HalfSample, Sum;
    var least := if lg <= lg2 then lg else lg2;
    var half: nat := HalfSample(least);
    HalfSampleMono(least, lg);
    HalfSampleMono(least, lg2);
    AccountedForLess(contents, offset, weight + Sum(contents2), HalfSample(lg), half);
    AccountedForLess(contents2, offset2, weight2, HalfSample(lg2), half);
    assert (offset + offset2) * half == offset * half + offset2 * half;
  }

  const EPSILON_FACTOR: real := 3.5

  function GetEpsilon(lgMaxMapSize: nat): real {
    EPSILON_FACTOR / Pow2(lgMaxMapSize) as real
  }

  /** An error is within epsilon of the total weight. */
  ghost predicate IsWithin(error: nat, lg: nat, totalWeight: nat) {
    error as real <= GetEpsilon(lg) * totalWeight as real
  }

  lemma HalfSampleIs(lg: nat)
    requires LG_MIN_MAP_SIZE <= lg
    ensures lg <= 10 ==> 7 * HalfSample(lg) >= 2 * Pow2(lg)
    ensures lg > 10 ==> HalfSample(lg) == 512
    ensures HalfSample(lg) >= 4
  {
    Pow2Mono(3, lg);
    assert Pow2(3) == 8;
    if lg <= 10 {
      Pow2Mono(lg, 10);
      assert Pow2(10) == 1024;
    } else {
      Pow2Mono(11, lg);
      assert Pow2(11) == 2048;
    }
    hide Pow2;
  }

  /** For maps of up to 2^10 slots the sample is the whole map, and the documented error holds. */
  lemma MaximumError<K>(contents: map<K, nat>, offset: nat, totalWeight: nat, lg: nat)
    requires LG_MIN_MAP_SIZE <= lg && Accounted(contents, offset, totalWeight, HalfSample(lg))
    ensures lg <= 10 ==> IsWithin(offset, lg, totalWeight)
    ensures lg > 10 ==> 512 * offset <= totalWeight
  {
    hide HalfSample, Sum, Pow2, IsWithin;
    HalfSampleIs(lg);
    if lg <= 10 {
      DocumentedError(offset, HalfSample(lg), lg, totalWeight);
    } else {
      assert offset * HalfSample(lg) == offset * 512;
    }
  }

  lemma DocumentedError(offset: nat, half: nat, lg: nat, totalWeight: nat)
    requires 7 * half >= 2 * Pow2(lg) && offset * half <= totalWeight
    ensures IsWithin(offset, lg, totalWeight)
  {
    hide IsWithin;
    OffsetBound(offset, half, Pow2(lg), totalWeight);
    WithinExactly(offset, lg, totalWeight);
  }

  lemma OffsetBound(offset: nat, half: nat, n: nat, totalWeight: nat)
    requires 7 * half >= 2 * n && offset * half <= totalWeight
    ensures 2 * (offset * n) <= 7 * totalWeight
  {
    MulMono(offset, 2 * n, 7 * half);
    assert offset * (2 * n) == 2 * (offset * n) && offset * (7 * half) == 7 * (offset * half);
  }

  /** The comparison with epsilon, in integers. */
  lemma WithinExactly(error: nat, lg: nat, totalWeight: nat)
    ensures IsWithin(error, lg, totalWeight) <==> 2 * (error * Pow2(lg)) <= 7 * totalWeight
  {
    EpsilonIs(lg);
    hide Pow2, GetEpsilon;
    InReals(error, Pow2(lg), GetEpsilon(lg), totalWeight);
  }

  lemma EpsilonIs(lg: nat)
    ensures Pow2(lg) > 0 && GetEpsilon(lg) == EPSILON_FACTOR / Pow2(lg) as real
  {
  }

  lemma InReals(error: nat, n: nat, epsilon: real, totalWeight: nat)
    requires n > 0 && epsilon == EPSILON_FACTOR / n as real
    ensures error as real <= epsilon * totalWeight as real <==> 2 * (error * n) <= 7 * totalWeight
  {
    assert error as real * n as real == (error * n) as real;
    AgainstQuotient(error as real, n as real, epsilon, totalWeight as real);
  }

  lemma AgainstQuotient(x: real, m: real, epsilon: real, w: real)
    requires m > 0.0 && epsilon == EPSILON_FACTOR / m
    ensures x <= epsilon * w <==> 2.0 * (x * m) <= 7.0 * w
  {
    var q := epsilon * w;
    assert q * m == EPSILON_FACTOR * w;
    if x <= q {
      assert (q - x) * m >= 0.0;
    } else {
      assert (x - q) * m > 0.0;
    }
  }

  // ----- the sketch -----

  datatype ErrorType = NoFalsePositives | NoFalseNegatives

  /** An entry of the list of frequent items. */
  datatype Row<K> = Row(item: K, weight: nat, offset: nat) {
    function Estimate(): nat {
      weight + offset
    }

    function LowerBound(): nat {
      weight
    }

    function UpperBound(): nat {
      weight + offset
    }
  }

  function Weighed<K>(truth: map<K, nat>, item: K, weight: nat): map<K, nat> {
    if weight == 0 then truth else Adjust(truth, item, weight)
  }

  predicate Passes<K>(errType: ErrorType, row: Row<K>, threshold: nat) {
    || (errType == NoFalseNegatives && row.UpperBound() > threshold)
    || (errType == NoFalsePositives && row.LowerBound() > threshold)
  }

  /** The rows of some keys that pass the threshold. */
  ghost function Reported<K>(contents: map<K, nat>, keys: set<K>, offset: nat, errType: ErrorType, threshold: nat): set<Row<K>> {
    set key | key in keys && key in contents && Passes(errType, Row(key, contents[key], offset), threshold) ::
      Row(key, contents[key], offset)
  }

  /** Each row of the set, once. */
  ghost predicate ListsExactly<K>(rows: seq<Row<K>>, s: set<Row<K>>) {
    && |rows| == |s|
    && (forall row | row in rows :: row in s)
    && (forall row | row in s :: row in rows)
  }

  ghost predicate Lists<K>(rows: seq<Row<K>>, item: K) {
    exists i :: 0 <= i < |rows| && rows[i].item == item
  }

  /** Each row tells what the three queries answer for its item, and encloses its true weight. */
  ghost predicate RowsAnswer<K>(rows: seq<Row<K>>, contents: map<K, nat>, offset: nat, truth: map<K, nat>) {
    forall row | row in rows ::
      && row.item in contents
      && row.LowerBound() == contents[row.item]
      && row.Estimate() == row.UpperBound() == contents[row.item] + offset
      && row.LowerBound() <= Get(truth, row.item) <= row.UpperBound()
  }

  ghost predicate Descending<K>(rows: seq<Row<K>>) {
    forall i, j | 0 <= i < j < |rows| :: rows[i].Estimate() >= rows[j].Estimate()
  }

  function InsertRow<K>(rows: seq<Row<K>>, row: Row<K>): seq<Row<K>> {
    if rows == [] || rows[0].Estimate() <= row.Estimate() then [row] + rows
    else [rows[0]] + InsertRow(rows[1..], row)
  }

  function SortByEstimate<K>(rows: seq<Row<K>>): seq<Row<K>> {
    if rows == [] then [] else InsertRow(SortByEstimate(rows[1..]), rows[0])
  }

  lemma {:induction false} InsertedRow<K>(rows: seq<Row<K>>, row: Row<K>)
    requires Descending(rows)
    ensures Descending(InsertRow(rows, row)) && multiset(InsertRow(rows, row)) == multiset(rows) + multiset{row}
  {
    if rows != [] && rows[0].Estimate() > row.Estimate() {
      InsertedRow(rows[1..], row);
      assert rows == [rows[0]] + rows[1..];
      HeadStays(rows[0], rows[1..], row, InsertRow(rows[1..], row));
    }
  }

  lemma HeadStays<K>(head: Row<K>, rows: seq<Row<K>>, row: Row<K>, rest: seq<Row<K>>)
    requires Descending([head] + rows) && head.Estimate() >= row.Estimate()
    requires Descending(rest) && multiset(rest) == multiset(rows) + multiset{row}
    ensures Descending([head] + rest)
  {
    forall j | 0 <= j < |rest| ensures head.Estimate() >= rest[j].Estimate() {
      assert rest[j] in multiset(rest);
      if rest[j] != row {
        assert rest[j] in rows;
        var i :| 0 <= i < |rows| && rows[i] == rest[j];
        assert ([head] + rows)[0] == head && ([head] + rows)[i + 1] == rows[i];
      }
    }
  }

  lemma {:induction false} SortedRows<K>(rows: seq<Row<K>>)
    ensures Descending(SortByEstimate(rows)) && multiset(SortByEstimate(rows)) == multiset(rows)
  {
    if rows != [] {
      SortedRows(rows[1..]);
      InsertedRow(SortByEstimate(rows[1..]), rows[0]);
      assert rows == [rows[0]] + rows[1..];
    }
  }

  class FrequentItemsSketch<K(==)> {
    var totalWeight: nat
    var offset: nat
    const items: ReversePurgeHashMap<K>
    ghost var truth: map<K, nat>
    ghost var leastLgMax: nat

    /** truth is the weight of every item of the stream, and leastLgMax the smallest lg_max_map_size
        among this sketch and those whose entries have been merged into it. */
    ghost predicate Valid()
      reads this, items, items.slots
    {
      && items.Valid()
      && totalWeight == Sum(truth)
      && Positive(items.contents) && Positive(truth)
      && Bounds(items.contents, offset, truth)
      && LG_MIN_MAP_SIZE <= leastLgMax <= items.lgMax
      && Accounted(items.contents, offset, totalWeight, HalfSample(leastLgMax))
    }

    constructor (lgMaxMapSize: nat, lgStartMapSize: nat, hash: K -> nat)
      requires lgStartMapSize <= lgMaxMapSize
      ensures Valid() && fresh(items) && fresh(items.slots) && leastLgMax == items.lgMax
      ensures items.contents == map[] && truth == map[] && offset == 0 && totalWeight == 0
      ensures items.hash == hash && items.slots.Length == Pow2(items.lgCur)
      ensures forall i | 0 <= i < items.slots.Length :: items.slots[i].Free?
      ensures items.lgMax == (if lgMaxMapSize < LG_MIN_MAP_SIZE then LG_MIN_MAP_SIZE else lgMaxMapSize)
      ensures items.lgCur == (if lgStartMapSize < LG_MIN_MAP_SIZE then LG_MIN_MAP_SIZE else lgStartMapSize)
    {
      totalWeight, offset := 0, 0;
      items := new ReversePurgeHashMap<K>(
        if lgStartMapSize < LG_MIN_MAP_SIZE then LG_MIN_MAP_SIZE else lgStartMapSize,
        if lgMaxMapSize < LG_MIN_MAP_SIZE then LG_MIN_MAP_SIZE else lgMaxMapSize,
        hash);
      truth := map[];
      leastLgMax := if lgMaxMapSize < LG_MIN_MAP_SIZE then LG_MIN_MAP_SIZE else lgMaxMapSize;
      new;
      EmptySketch<K>(HalfSample(items.lgMax));
      hide Sum, Bounds, Positive, Accounted, HalfSample, ReversePurgeHashMap.Valid;
    }

    /** Refused if the map would start larger than it may become. */
    static method Make(lgMaxMapSize: nat, lgStartMapSize: nat, hash: K -> nat) returns (sketch: Option<FrequentItemsSketch<K>>)
      ensures sketch.None? <==> lgStartMapSize > lgMaxMapSize
      ensures sketch.Some? ==>
                var s := sketch.value;
                && fresh(s) && fresh(s.items) && fresh(s.items.slots) && s.Valid()
                && s.truth == s.items.contents == map[] && s.offset == 0 && s.items.hash == hash && s.leastLgMax == s.items.lgMax
                && s.items.lgMax == (if lgMaxMapSize < 3 then 3 else lgMaxMapSize)
                && s.items.lgCur == (if lgStartMapSize < 3 then 3 else lgStartMapSize)
    {
      if lgStartMapSize > lgMaxMapSize {
        return None;
      }
      var s := new FrequentItemsSketch<K>(lgMaxMapSize, lgStartMapSize, hash);
      return Some(s);
    }

    method Update(item: K, weight: nat) returns (ok: bool)
      requires Valid()
      modifies this, items, items.slots
      ensures old(items.lgMax) <= 10 || |old(items.contents)| + 2 < DRIFT_LIMIT ==> ok
      ensures ok ==> Valid() && truth == Weighed(old(truth), item, weight)
      ensures ok ==> items.lgMax == old(items.lgMax) && leastLgMax == old(leastLgMax)
      ensures ok && weight == 0 ==> totalWeight == old(totalWeight) && offset == old(offset) && items.contents == old(items.contents)
      ensures ok && weight > 0 ==>
                && offset >= old(offset) && totalWeight == old(totalWeight) + weight
                && Settled(Adjust(old(items.contents), item, weight), old(items.lgCur), items.lgMax,
                           items.contents, offset - old(offset), items.lgCur)
      ensures weight > 0 ==>
                var home := Home(items.hash, item, old(items.slots.Length)); old(items.slots[home]).Free? ==>
                  offset >= old(offset) &&
                  AtHome(old(items.slots[..])[home := Held(item, weight, 1)], old(items.lgCur), old(items.lgMax),
                         old(items.numActive), ok, items.slots == old(items.slots) && items.numActive == old(items.numActive) + 1,
                       items.slots[..], offset - old(offset))
      ensures ok ==> items.slots == old(items.slots) || fresh(items.slots)
    {
      hide Valid, Adjust, Settled, AtHome, Home;
      if weight == 0 {
        return true;
      }
      ok := Add(item, weight);
    }

    method Add(item: K, weight: nat) returns (ok: bool)
      requires Valid() && weight > 0
      modifies this, items, items.slots
      ensures old(items.lgMax) <= 10 || |old(items.contents)| + 2 < DRIFT_LIMIT ==> ok
      ensures ok ==> Valid() && truth == Adjust(old(truth), item, weight)
      ensures ok ==> items.lgMax == old(items.lgMax) && leastLgMax == old(leastLgMax)
      ensures ok ==>
                && offset >= old(offset) && totalWeight == old(totalWeight) + weight
                && Settled(Adjust(old(items.contents), item, weight), old(items.lgCur), items.lgMax,
                           items.contents, offset - old(offset), items.lgCur)
      ensures var home := Home(items.hash, item, old(items.slots.Length)); old(items.slots[home]).Free? ==>
                offset >= old(offset) &&
                AtHome(old(items.slots[..])[home := Held(item, weight, 1)], old(items.lgCur), old(items.lgMax),
                       old(items.numActive), ok, items.slots == old(items.slots) && items.numActive == old(items.numActive) + 1,
                       items.slots[..], offset - old(offset))
      ensures ok ==> items.slots == old(items.slots) || fresh(items.slots)
    {
      hide Sum, Adjust, Bounds, Settled, HalfSample, Positive, Accounted, ReversePurgeHashMap.Valid;
      ghost var contents, lgCur := items.contents, items.lgCur;
      SmallMap(items);
      totalWeight := totalWeight + weight;
      var purged;
      ok, purged := items.AdjustOrInsert(item, weight);
      if ok {
        UpdateKeeps(contents, offset, truth, item, weight, lgCur, items.lgMax, items.contents, purged, items.lgCur, leastLgMax);
        offset := offset + purged;
        truth := Adjust(truth, item, weight);
      }
    }

    method GetEstimate(item: K) returns (estimate: nat)
      requires Valid()
      ensures estimate == if item in items.contents then items.contents[item] + offset else 0
      ensures estimate > 0 ==> Get(truth, item) <= estimate <= Get(truth, item) + offset
      ensures estimate == 0 ==> Get(truth, item) <= offset
    {
      BoundsAt(items.contents, offset, truth, item);
      if item in items.contents {
        PositiveAt(items.contents, item);
      }
      var weight := items.GetValue(item);
      if weight > 0 {
        return weight + offset;
      }
      return 0;
    }

    method GetLowerBound(item: K) returns (bound: nat)
      requires Valid()
      ensures bound == Get(items.contents, item)
      ensures bound <= Get(truth, item) <= bound + offset
    {
      BoundsAt(items.contents, offset, truth, item);
      bound := items.GetValue(item);
    }

    method GetUpperBound(item: K) returns (bound: nat)
      requires Valid()
      ensures bound == Get(items.contents, item) + offset
      ensures Get(truth, item) <= bound <= Get(truth, item) + offset
    {
      BoundsAt(items.contents, offset, truth, item);
      var weight := items.GetValue(item);
      bound := weight + offset;
    }

    function GetMaximumError(): nat
      reads this
    {
      offset
    }

    predicate IsEmpty()
      reads this, items
    {
      items.numActive == 0
    }

    /** The items above a threshold, most frequent first. At a threshold of at least the maximum
        error, no item heavier than the threshold is missing from the list without false negatives;
        every item of the list without false positives is heavier. What is missing from the latter, or
        too light for the former, is within the maximum error of the threshold. */
    method GetFrequentItems(errType: ErrorType, threshold: nat) returns (rows: seq<Row<K>>)
      requires Valid()
      ensures Descending(rows) && ListsExactly(rows, Reported(items.contents, items.contents.Keys, offset, errType, threshold))
      ensures RowsAnswer(rows, items.contents, offset, truth)
      ensures forall item | item in items.contents ::
                Lists(rows, item) <==> if errType == NoFalseNegatives then items.contents[item] + offset > threshold
                                       else items.contents[item] > threshold
      ensures errType == NoFalseNegatives && threshold >= offset ==>
                forall item | item in truth && truth[item] > threshold :: Lists(rows, item)
      ensures errType == NoFalseNegatives ==> forall row | row in rows :: Get(truth, row.item) + offset > threshold
      ensures errType == NoFalsePositives ==> forall row | row in rows :: Get(truth, row.item) > threshold
      ensures errType == NoFalsePositives ==>
                forall item | item in truth && truth[item] > threshold + offset :: Lists(rows, item)
    {
      hide Sum, Bounds, ReversePurgeHashMap.Valid, Iterating, Positive, Reported, ListsExactly;
      rows := [];
      var index: nat, stride: nat := items.Begin();
      ghost var start, t, done: set<K> := if index < items.slots.Length then index else 0, 0, {};
      var count := 0;
      MapSize(items);
      NothingReported<K>(items.contents, offset, errType, threshold);
      while count != items.numActive
        invariant count <= items.numActive
        invariant start < items.slots.Length && stride < items.slots.Length
        invariant Iterating(items.slots[..], items.contents, start, stride, index, t, count, done)
        invariant ListsExactly(rows, Reported(items.contents, done, offset, errType, threshold))
        decreases items.numActive - count
      {
        hide Sum, Bounds, ReversePurgeHashMap.Valid, Iterating, Positive, Reported, ListsExactly;
        items.AtIndex(index, count, stride, start, t, done);
        var row := Row(items.slots[index].key, items.slots[index].value, offset);
        NextReported(items.contents, done, offset, errType, threshold, rows, row);
        if Passes(errType, row, threshold) {
          rows := rows + [row];
        }
        index, t := items.Advance(index, count, stride, start, t, done);
        done := done + {row.item};
        count := count + 1;
      }
      EverythingDone(items.slots[..], items.contents, start, stride, index, t, count, done);
      SortedRows(rows); // std::sort
      ghost var unsorted := rows;
      rows := SortByEstimate(rows);
      SameRows(unsorted, rows, Reported(items.contents, done, offset, errType, threshold));
      ReportedItems(items.contents, offset, truth, errType, threshold, rows);
      HeavyItemsListed(items.contents, offset, truth, errType, threshold, rows);
    }

    /** With the maximum error for threshold, the two lists are right. */
    method GetFrequentItemsByError(errType: ErrorType) returns (rows: seq<Row<K>>)
      requires Valid()
      ensures Descending(rows) && RowsAnswer(rows, items.contents, offset, truth)
      ensures errType == NoFalseNegatives ==> forall item | item in truth && truth[item] > offset :: Lists(rows, item)
      ensures errType == NoFalseNegatives ==> forall item | item in items.contents :: Lists(rows, item)
      ensures errType == NoFalsePositives ==> forall row | row in rows :: Get(truth, row.item) > offset
      ensures errType == NoFalsePositives ==>
                forall item | item in items.contents :: Lists(rows, item) <==> items.contents[item] > offset
    {
      hide Valid, Descending, RowsAnswer, Lists, ListsExactly, Reported;
      AllPositive();
      rows := GetFrequentItems(errType, GetMaximumError());
    }

    lemma AllPositive()
      requires Valid()
      ensures forall item | item in items.contents :: items.contents[item] > 0
    {
      hide ReversePurgeHashMap.Valid, Bounds, Sum, Accounted;
    }

    /** Adds another sketch's stream. Another sketch whose map is empty is taken for an empty sketch. */
    method Merge(other: FrequentItemsSketch<K>) returns (ok: bool)
      requires Valid() && other.Valid()
      requires this != other && items != other.items && items.slots != other.items.slots
      modifies this, items, items.slots
      ensures old(items.lgMax) <= 10 || |old(items.contents)| + |other.items.contents| + 1 < DRIFT_LIMIT ==> ok
      ensures ok ==> Valid() && items.lgMax == old(items.lgMax) && (items.slots == old(items.slots) || fresh(items.slots))
      ensures other.items.contents == map[] ==>
                && ok && truth == old(truth) && totalWeight == old(totalWeight) && offset == old(offset)
                && leastLgMax == old(leastLgMax) && items.contents == old(items.contents)
                && items.slots == old(items.slots) && items.slots[..] == old(items.slots[..])
      ensures ok && other.items.contents != map[] ==>
                && truth == Combined(old(truth), other.truth) && totalWeight == old(totalWeight) + other.totalWeight
                && leastLgMax == (if old(leastLgMax) <= other.leastLgMax then old(leastLgMax) else other.leastLgMax)
                && offset >= old(offset) + other.offset
                && (|old(items.contents).Keys + other.items.contents.Keys| <= Capacity(items.lgMax) ==>
                      offset == old(offset) + other.offset && items.contents == Combined(old(items.contents), other.items.contents))
      ensures ok ==>
                (totalWeight == old(totalWeight) + other.totalWeight <==> other.items.contents != map[] || other.totalWeight == 0)
    {
      hide Valid, Sum, Adjust, Bounds, Settled, HalfSample, Combined, Accounted, Capacity, Positive,
           ReversePurgeHashMap.Valid;
      SizesInOrder();
      other.SizesInOrder();
      if other.IsEmpty() {
        return true;
      }
      var mergedTotalWeight := totalWeight + other.totalWeight; // the updates count the entries only
      ok := UpdateAll(other.items);
      if ok {
        CloseMerge(other, mergedTotalWeight, old(truth));
      }
    }

    /** Both offsets and both weights apply to the merged stream. */
    method CloseMerge(other: FrequentItemsSketch<K>, mergedTotalWeight: nat, ghost truth0: map<K, nat>)
      requires Valid() && other.Valid() && this != other
      requires truth == Combined(truth0, other.items.contents) && Positive(truth0)
      requires mergedTotalWeight == Sum(truth0) + other.totalWeight
      modifies `offset, `totalWeight, `truth, `leastLgMax
      ensures Valid() && truth == Combined(truth0, other.truth)
      ensures offset == old(offset) + other.offset && totalWeight == mergedTotalWeight
      ensures leastLgMax == if old(leastLgMax) <= other.leastLgMax then old(leastLgMax) else other.leastLgMax
    {
      hide Sum, Bounds, HalfSample, Combined, Accounted, Positive, ReversePurgeHashMap.Valid;
      MergeKeeps(items.contents, offset, truth0, leastLgMax, other.items.contents, other.offset, other.truth, other.leastLgMax);
      offset := offset + other.offset;
      totalWeight := mergedTotalWeight;
      truth := Combined(truth0, other.truth);
      leastLgMax := if leastLgMax <= other.leastLgMax then leastLgMax else other.leastLgMax;
    }

    /** Some keys of another map have been merged, since this sketch had the stream truth0. */
    ghost predicate Merging(others: map<K, nat>, done: set<K>, truth0: map<K, nat>, contents0: map<K, nat>, offset0: nat)
      reads this, items, items.slots
    {
      Valid() && Merged(others, done, truth0, contents0, offset0, items.lgMax, truth, items.contents, offset)
    }

    method UpdateEntry(key: K, weight: nat, ghost others: map<K, nat>, ghost done: set<K>, ghost truth0: map<K, nat>,
                       ghost contents0: map<K, nat>, ghost offset0: nat) returns (ok: bool)
      requires Merging(others, done, truth0, contents0, offset0)
      requires key in others && weight == others[key] && key !in done
      modifies this, items, items.slots
      ensures old(items.lgMax) <= 10 || |contents0| + |done| + 2 < DRIFT_LIMIT ==> ok
      ensures ok ==> Merging(others, done + {key}, truth0, contents0, offset0)
      ensures ok ==> items.lgMax == old(items.lgMax) && leastLgMax == old(leastLgMax)
      ensures ok ==> items.slots == old(items.slots) || fresh(items.slots)
    {
      hide Valid, Adjust, Settled, Merged, Weighed, AtHome, Home;
      SizesInOrder();
      ghost var lgCur, contents, stream, offset1 := items.lgCur, items.contents, truth, offset;
      MergedSizes(others, done, truth0, contents0, offset0, items.lgMax, stream, contents, offset1, key);
      ok := Update(key, weight);
      if ok {
        NextMerged(others, done, key, truth0, contents0, offset0, items.lgMax, stream, contents, offset1, lgCur,
                   items.contents, offset, items.lgCur);
      }
    }

    lemma SizesInOrder()
      requires Valid()
      ensures items.Valid() && items.lgCur <= items.lgMax && Positive(items.contents) && Positive(truth)
      ensures totalWeight == Sum(truth)
      ensures items.numActive == |items.contents| && (items.numActive == 0 <==> items.contents == map[])
    {
      hide Sum, Bounds, Positive, Accounted;
      MapSize(items);
    }

    lemma MergingStarts(others: map<K, nat>)
      requires Valid() && Positive(others)
      ensures Merging(others, {}, truth, items.contents, offset)
    {
      hide Valid, Positive;
      assert Restricted(others, {}) == map[];
      CombinedNothing(truth, Restricted(others, {}));
      CombinedNothing(items.contents, Restricted(others, {}));
    }

    lemma MergingEnds(others: map<K, nat>, truth0: map<K, nat>, contents0: map<K, nat>, offset0: nat)
      requires Merging(others, others.Keys, truth0, contents0, offset0)
      ensures Valid() && truth == Combined(truth0, others) && offset >= offset0
      ensures |contents0.Keys + others.Keys| <= Capacity(items.lgMax) ==>
                offset == offset0 && items.contents == Combined(contents0, others)
    {
      hide Valid, Positive, Combined;
      assert Restricted(others, others.Keys) == others;
    }

    /** Updates with the entry that an iteration has come to, and goes on to the next. */
    method UpdateNext(others: ReversePurgeHashMap<K>, index: nat, count: nat, stride: nat, ghost start: nat, ghost t: nat,
                      ghost done: set<K>, ghost truth0: map<K, nat>, ghost contents0: map<K, nat>, ghost offset0: nat)
      returns (ok: bool, index': nat, ghost t': nat, ghost done': set<K>)
      requires others.Valid() && items != others && items.slots != others.slots
      requires count < others.numActive == |others.contents|
      requires stride % 2 == 1 && start < others.slots.Length && stride < others.slots.Length
      requires Iterating(others.slots[..], others.contents, start, stride, index, t, count, done)
      requires Merging(others.contents, done, truth0, contents0, offset0)
      modifies this, items, items.slots
      ensures old(items.lgMax) <= 10 || |contents0| + |others.contents| + 1 < DRIFT_LIMIT ==> ok
      ensures ok ==> Iterating(others.slots[..], others.contents, start, stride, index', t', count + 1, done')
      ensures ok ==> Merging(others.contents, done', truth0, contents0, offset0)
      ensures ok ==> items.lgMax == old(items.lgMax) && leastLgMax == old(leastLgMax)
      ensures ok ==> items.slots == old(items.slots) || fresh(items.slots)
    {
      hide Merging, Valid, ReversePurgeHashMap.Valid, Iterating;
      others.AtIndex(index, count, stride, start, t, done);
      var key, weight := others.slots[index].key, others.slots[index].value;
      DoneSize(others, start, stride, index, t, count, done);
      index', t', done' := index, t, done + {key};
      ok := UpdateEntry(key, weight, others.contents, done, truth0, contents0, offset0);
      if ok {
        index', t' := others.Advance(index, count, stride, start, t, done);
      }
    }

    /** The iteration over another map. */
    method UpdateEntries(others: ReversePurgeHashMap<K>, ghost truth0: map<K, nat>, ghost contents0: map<K, nat>,
                         ghost offset0: nat) returns (ok: bool)
      requires others.Valid() && items != others && items.slots != others.slots
      requires Merging(others.contents, {}, truth0, contents0, offset0)
      modifies this, items, items.slots
      ensures old(items.lgMax) <= 10 || |contents0| + |others.contents| + 1 < DRIFT_LIMIT ==> ok
      ensures ok ==> Merging(others.contents, others.contents.Keys, truth0, contents0, offset0)
      ensures ok ==> items.lgMax == old(items.lgMax) && leastLgMax == old(leastLgMax)
      ensures ok ==> items.slots == old(items.slots) || fresh(items.slots)
    {
      hide Merging, Valid, ReversePurgeHashMap.Valid, Iterating;
      ok := true;
      var index: nat, stride: nat := others.Begin();
      ghost var start, t, done: set<K> := if index < others.slots.Length then index else 0, 0, {};
      var count := 0;
      MapSize(others);
      while count != others.numActive
        invariant count <= others.numActive == |others.contents| && others.Valid()
        invariant stride % 2 == 1 && start < others.slots.Length && stride < others.slots.Length
        invariant Iterating(others.slots[..], others.contents, start, stride, index, t, count, done)
        invariant ok && Merging(others.contents, done, truth0, contents0, offset0)
        invariant items.slots != others.slots && (items.slots == old(items.slots) || fresh(items.slots))
        invariant items.lgMax == old(items.lgMax) && leastLgMax == old(leastLgMax)
        decreases others.numActive - count
      {
        hide Merging, Valid, ReversePurgeHashMap.Valid, Iterating;
        ok, index, t, done := UpdateNext(others, index, count, stride, start, t, done, truth0, contents0, offset0);
        if !ok {
          return;
        }
        count := count + 1;
      }
      EverythingDone(others.slots[..], others.contents, start, stride, index, t, count, done);
    }

    /** Updates with all entries of another map. */
    method UpdateAll(others: ReversePurgeHashMap<K>) returns (ok: bool)
      requires Valid() && others.Valid() && Positive(others.contents)
      requires items != others && items.slots != others.slots
      modifies this, items, items.slots
      ensures old(items.lgMax) <= 10 || |old(items.contents)| + |others.contents| + 1 < DRIFT_LIMIT ==> ok
      ensures ok ==> Valid() && truth == Combined(old(truth), others.contents)
      ensures ok ==> items.lgMax == old(items.lgMax) && leastLgMax == old(leastLgMax) && offset >= old(offset)
      ensures ok ==> items.slots == old(items.slots) || fresh(items.slots)
      ensures ok && |old(items.contents).Keys + others.contents.Keys| <= Capacity(items.lgMax) ==>
                offset == old(offset) && items.contents == Combined(old(items.contents), others.contents)
    {
      hide Merging, Valid, ReversePurgeHashMap.Valid, Positive, Combined, Capacity;
      MergingStarts(others.contents);
      ok := UpdateEntries(others, truth, items.contents, offset);
      if ok {
        MergingEnds(others.contents, old(truth), old(items.contents), old(offset));
      }
    }
  }

  lemma DoneSize<K>(others: ReversePurgeHashMap<K>, start: nat, stride: nat, index: nat, t: nat, count: nat, done: set<K>)
    requires Iterating(others.slots[..], others.contents, start, stride, index, t, count, done)
    ensures |done| == count
  {
  }

  /** What adding the entries done so far has made of a stream and a map. If all entries fit into the
      map, they have been added to it as they are. */
  ghost predicate Merged<K>(others: map<K, nat>, done: set<K>, truth0: map<K, nat>, contents0: map<K, nat>, offset0: nat,
                            lgMax: nat, truth: map<K, nat>, contents: map<K, nat>, offset: nat)
  {
    && Positive(others) && offset >= offset0
    && truth == Combined(truth0, Restricted(others, done))
    && |contents| <= |contents0| + |done|
    && (|contents0.Keys + others.Keys| <= Capacity(lgMax) ==>
          offset == offset0 && contents == Combined(contents0, Restricted(others, done)))
  }

  lemma MergedSizes<K>(others: map<K, nat>, done: set<K>, truth0: map<K, nat>, contents0: map<K, nat>, offset0: nat,
                       lgMax: nat, truth: map<K, nat>, contents: map<K, nat>, offset: nat, key: K)
    requires Merged(others, done, truth0, contents0, offset0, lgMax, truth, contents, offset) && key in others
    ensures |contents| <= |contents0| + |done| && others[key] > 0
  {
    hide Combined, Restricted, Capacity;
  }

  lemma NextMerged<K>(others: map<K, nat>, done: set<K>, key: K, truth0: map<K, nat>, contents0: map<K, nat>, offset0: nat,
                      lgMax: nat, truth: map<K, nat>, contents: map<K, nat>, offset: nat, lgCur: nat,
                      contents': map<K, nat>, offset': nat, lgCur': nat)
    requires key in others && key !in done && lgCur <= lgMax && offset' >= offset
    requires Merged(others, done, truth0, contents0, offset0, lgMax, truth, contents, offset)
    requires Settled(Adjust(contents, key, others[key]), lgCur, lgMax, contents', offset' - offset, lgCur')
    ensures Merged(others, done + {key}, truth0, contents0, offset0, lgMax, Weighed(truth, key, others[key]), contents', offset')
  {
    hide Settled, Capacity, Restricted, Combined, Adjust, Weighed, Positive;
    NextDone(truth0, others, done, key);
    assert |done + {key}| == |done| + 1;
    SettledSize(contents, key, others[key], lgCur, lgMax, contents', offset' - offset, lgCur');
    if |contents0.Keys + others.Keys| <= Capacity(lgMax) {
      NextKept(others, done, key, contents0, lgMax, contents);
    }
  }

  lemma NextKept<K>(others: map<K, nat>, done: set<K>, key: K, contents0: map<K, nat>, lgMax: nat, contents: map<K, nat>)
    requires key in others && key !in done && Positive(others)
    requires |contents0.Keys + others.Keys| <= Capacity(lgMax) && contents == Combined(contents0, Restricted(others, done))
    ensures |contents.Keys + {key}| <= Capacity(lgMax)
    ensures Adjust(contents, key, others[key]) == Combined(contents0, Restricted(others, done + {key}))
  {
    NextDone(contents0, others, done, key);
    PositiveAt(others, key);
    hide Capacity, Restricted, Combined, Adjust, Positive;
    NextFits(contents0, others, done, key);
  }

  /** One entry makes the map grow by one at most, and is kept as it is while the map is not full. */
  lemma SettledSize<K>(contents0: map<K, nat>, key: K, weight: nat, lgCur0: nat, lgMax: nat, contents: map<K, nat>,
                       purged: nat, lgCur: nat)
    requires Settled(Adjust(contents0, key, weight), lgCur0, lgMax, contents, purged, lgCur) && lgCur0 <= lgMax
    ensures |contents| <= |contents0| + 1
    ensures |contents0.Keys + {key}| <= Capacity(lgMax) ==> purged == 0 && contents == Adjust(contents0, key, weight)
  {
    AdjustSize(contents0, key, weight);
    var all := Adjust(contents0, key, weight);
    assert all.Keys == contents0.Keys + {key};
    assert |all.Keys| == |all| && |contents.Keys| == |contents|;
    hide Capacity, IsMedian;
    if contents == Reduced(all, purged) {
      KeysSubset(contents.Keys, all.Keys);
    }
  }

  lemma KeysSubset<K>(a: set<K>, b: set<K>)
    requires a <= b
    ensures |a| <= |b|
  {
    assert b == a + (b - a);
  }

  lemma NextFits<K>(contents: map<K, nat>, others: map<K, nat>, done: set<K>, key: K)
    requires key in others
    ensures |Combined(contents, Restricted(others, done)).Keys + {key}| <= |contents.Keys + others.Keys|
  {
    KeysSubset(Combined(contents, Restricted(others, done)).Keys + {key}, contents.Keys + others.Keys);
  }

  lemma MergeKeeps<K>(contents: map<K, nat>, offset: nat, truth: map<K, nat>, least: nat, contents2: map<K, nat>,
                      offset2: nat, truth2: map<K, nat>, least2: nat)
    requires Bounds(contents, offset, Combined(truth, contents2)) && Bounds(contents2, offset2, truth2)
    requires Accounted(contents, offset, Sum(Combined(truth, contents2)), HalfSample(least))
    requires Accounted(contents2, offset2, Sum(truth2), HalfSample(least2))
    requires Positive(truth) && Positive(truth2) && LG_MIN_MAP_SIZE <= least && LG_MIN_MAP_SIZE <= least2
    ensures Bounds(contents, offset + offset2, Combined(truth, truth2)) && Positive(Combined(truth, truth2))
    ensures Sum(Combined(truth, truth2)) == Sum(truth) + Sum(truth2)
    ensures Accounted(contents, offset + offset2, Sum(truth) + Sum(truth2), HalfSample(if least <= least2 then least else least2))
  {
    hide Sum, Combined, Bounds, Accounted, Positive, HalfSample;
    BoundsCombined(contents, offset, truth, contents2, offset2, truth2);
    PositiveCombined(truth, truth2);
    SumCombined(truth, truth2);
    SumCombined(truth, contents2);
    AccountedMerged(contents, offset, Sum(truth), least, contents2, offset2, Sum(truth2), least2);
  }

  lemma MapSize<K>(items: ReversePurgeHashMap<K>)
    requires items.Valid()
    ensures items.numActive == |items.contents| && LG_MIN_MAP_SIZE <= items.lgCur <= items.lgMax
    ensures items.numActive == 0 <==> items.contents == map[]
  {
    if items.numActive == 0 {
      assert items.contents.Keys == {};
    }
  }

  lemma NothingReported<K>(contents: map<K, nat>, offset: nat, errType: ErrorType, threshold: nat)
    ensures ListsExactly([], Reported(contents, {}, offset, errType, threshold))
  {
    assert Reported(contents, {}, offset, errType, threshold) == {};
  }

  lemma NextReported<K>(contents: map<K, nat>, keys: set<K>, offset: nat, errType: ErrorType, threshold: nat,
                        rows: seq<Row<K>>, row: Row<K>)
    requires row.item in contents && row.item !in keys && row == Row(row.item, contents[row.item], offset)
    requires ListsExactly(rows, Reported(contents, keys, offset, errType, threshold))
    ensures ListsExactly(if Passes(errType, row, threshold) then rows + [row] else rows,
                         Reported(contents, keys + {row.item}, offset, errType, threshold))
  {
    var before := Reported(contents, keys, offset, errType, threshold);
    var after := Reported(contents, keys + {row.item}, offset, errType, threshold);
    if Passes(errType, row, threshold) {
      assert after == before + {row};
    } else {
      assert after == before;
    }
  }

  lemma SameRows<K>(rows: seq<Row<K>>, rows': seq<Row<K>>, s: set<Row<K>>)
    requires multiset(rows) == multiset(rows') && ListsExactly(rows, s)
    ensures ListsExactly(rows', s)
  {
    assert |rows'| == |multiset(rows')| == |rows|;
    forall row ensures row in rows <==> row in rows' {
      assert row in multiset(rows') <==> row in multiset(rows);
    }
  }

  lemma ReportedItems<K>(contents: map<K, nat>, offset: nat, truth: map<K, nat>, errType: ErrorType, threshold: nat,
                         rows: seq<Row<K>>)
    requires Bounds(contents, offset, truth)
    requires ListsExactly(rows, Reported(contents, contents.Keys, offset, errType, threshold))
    ensures RowsAnswer(rows, contents, offset, truth)
    ensures forall item | item in contents ::
              Lists(rows, item) <==> if errType == NoFalseNegatives then contents[item] + offset > threshold
                                     else contents[item] > threshold
    ensures errType == NoFalseNegatives ==> forall row | row in rows :: Get(truth, row.item) + offset > threshold
    ensures errType == NoFalsePositives ==> forall row | row in rows :: Get(truth, row.item) > threshold
  {
    var reported := Reported(contents, contents.Keys, offset, errType, threshold);
    forall item | item in contents
      ensures Lists(rows, item) <==> Passes(errType, Row(item, contents[item], offset), threshold)
    {
      var row := Row(item, contents[item], offset);
      if Passes(errType, row, threshold) {
        assert row in reported && row in rows;
      }
      if Lists(rows, item) {
        var i :| 0 <= i < |rows| && rows[i].item == item;
        assert rows[i] in rows && rows[i] in reported;
      }
    }
    forall row | row in rows
      ensures row.item in contents && row == Row(row.item, contents[row.item], offset) && Passes(errType, row, threshold)
      ensures row.LowerBound() <= Get(truth, row.item) <= row.UpperBound()
    {
      assert row in reported;
      BoundsAt(contents, offset, truth, row.item);
    }
  }

  /** So nothing far enough above the threshold is missing. */
  lemma HeavyItemsListed<K>(contents: map<K, nat>, offset: nat, truth: map<K, nat>, errType: ErrorType, threshold: nat,
                            rows: seq<Row<K>>)
    requires Bounds(contents, offset, truth)
    requires forall item | item in contents ::
               Lists(rows, item) <==> if errType == NoFalseNegatives then contents[item] + offset > threshold
                                      else contents[item] > threshold
    ensures errType == NoFalseNegatives && threshold >= offset ==>
              forall item | item in truth && truth[item] > threshold :: Lists(rows, item)
    ensures errType == NoFalsePositives ==>
              forall item | item in truth && truth[item] > threshold + offset :: Lists(rows, item)
  {
    hide Lists, Bounds;
    forall item | item in truth && truth[item] > (if errType == NoFalseNegatives then threshold else threshold + offset)
      ensures errType == NoFalsePositives || threshold >= offset ==> Lists(rows, item)
    {
      BoundsAt(contents, offset, truth, item);
    }
  }

  lemma NextDone<K>(truth: map<K, nat>, contents: map<K, nat>, done: set<K>, key: K)
    requires key in contents && key !in done && Positive(contents)
    ensures Weighed(Combined(truth, Restricted(contents, done)), key, contents[key])
            == Combined(truth, Restricted(contents, done + {key}))
  {
    CombinedNext(truth, Restricted(contents, done), key, contents[key]);
    assert Restricted(contents, done + {key}) == Restricted(contents, done)[key := contents[key]];
    hide Combined, Restricted;
  }

  lemma EmptySketch<K>(half: nat)
    ensures Sum<K>(map[]) == 0 && Bounds<K>(map[], 0, map[]) && Positive<K>(map[]) && Accounted<K>(map[], 0, 0, half)
  {
  }

  /** One update, with whatever purge it triggers. */
  lemma UpdateKeeps<K>(contents: map<K, nat>, offset: nat, truth: map<K, nat>, item: K, weight: nat, lgCur: nat, lgMax: nat,
                       contents': map<K, nat>, purged: nat, lgCur': nat, least: nat)
    requires weight > 0 && Positive(contents) && Positive(truth) && Bounds(contents, offset, truth)
    requires Settled(Adjust(contents, item, weight), lgCur, lgMax, contents', purged, lgCur')
    requires LG_MIN_MAP_SIZE <= least <= lgMax && Accounted(contents, offset, Sum(truth), HalfSample(least))
    ensures Sum(Adjust(truth, item, weight)) == Sum(truth) + weight
    ensures Positive(contents') && Positive(Adjust(truth, item, weight))
    ensures Bounds(contents', offset + purged, Adjust(truth, item, weight))
    ensures Accounted(contents', offset + purged, Sum(truth) + weight, HalfSample(least))
  {
    SumAdjust(truth, item, weight);
    SumAdjust(contents, item, weight);
    hide Sum, Adjust, Bounds, Settled, HalfSample, Positive;
    var all := Adjust(contents, item, weight);
    BoundsAdjusted(contents, offset, truth, item, weight);
    BoundsSettled(all, lgCur, lgMax, contents', purged, lgCur', offset, Adjust(truth, item, weight));
    HalfSampleMono(least, lgMax);
    AccountedSettled(all, lgCur, lgMax, contents', purged, lgCur', offset, Sum(truth) + weight, HalfSample(least));
  }

  lemma SmallMap<K>(items: ReversePurgeHashMap<K>)
    requires items.Valid()
    ensures items.lgMax <= 10 ==> |items.contents| <= 768
  {
    CapacityFits(items.lgCur);
    hide Capacity, IsMap;
  }

  /** get_maximum_error() <= get_epsilon() * get_total_weight() */
  ghost predicate WithinEpsilon<K>(sketch: FrequentItemsSketch<K>)
    reads sketch, sketch.items
  {
    IsWithin(sketch.GetMaximumError(), sketch.items.lgMax, sketch.totalWeight)
  }

  /** The error is within epsilon of the total weight, for the epsilon of the smallest map that any part
      of the stream has gone through: that is the sketch's own epsilon unless it has merged entries of
      a sketch with a smaller maximum size. */
  lemma ErrorWithinEpsilon<K>(sketch: FrequentItemsSketch<K>)
    requires sketch.Valid()
    ensures sketch.leastLgMax <= 10 ==> IsWithin(sketch.GetMaximumError(), sketch.leastLgMax, sketch.totalWeight)
    ensures sketch.leastLgMax > 10 ==> 512 * sketch.GetMaximumError() <= sketch.totalWeight
    ensures sketch.items.lgMax <= 10 && sketch.leastLgMax == sketch.items.lgMax ==> WithinEpsilon(sketch)
  {
    hide ReversePurgeHashMap.Valid, Accounted, HalfSample, IsWithin, Sum, Bounds, Positive;
    MaximumError(sketch.items.contents, sketch.offset, sketch.totalWeight, sketch.leastLgMax);
  }

  // ----- empty maps -----

  /** A sketch whose map is empty has seen weight exactly if its offset is positive: that is when
      merging it loses weight. */
  lemma EmptyMapWithWeight<K>(sketch: FrequentItemsSketch<K>)
    requires sketch.Valid() && sketch.items.contents == map[]
    ensures sketch.totalWeight == 0 <==> sketch.offset == 0
  {
    hide ReversePurgeHashMap.Valid, HalfSample, Positive;
    HalfSampleIs(sketch.leastLgMax);
    if sketch.offset == 0 {
      forall key | key in sketch.truth ensures sketch.truth[key] == 0 {
        BoundsAt(sketch.items.contents, sketch.offset, sketch.truth, key);
      }
      SumOfNothing(sketch.truth);
    } else {
      MulMono(HalfSample(sketch.leastLgMax), 1, sketch.offset);
    }
  }
}
