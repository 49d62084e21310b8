/** The sorted view of a quantiles sketch: weighted items in order, and ranks and quantiles as two
    sides of one relation (common/include/quantiles_sorted_view_impl.hpp). */
module SortedViews {
  import opened CpcUtil

  datatype Entry<T> = Entry(item: T, weight: nat)

  // ----- order -----

  /** A strict weak order, as the C++ library requires of a comparator. */
  ghost predicate IsOrder<T(!new)>(less: (T, T) -> bool) {
    && (forall a, b :: less(a, b) ==> !less(b, a))
    && (forall a, b, c :: less(a, b) ==> less(a, c) || less(c, b))
  }

  ghost predicate Sorted<T>(s: seq<Entry<T>>, less: (T, T) -> bool) {
    forall i, j | 0 <= i < j < |s| :: !less(s[j].item, s[i].item)
  }

  /** std::merge, which takes from a on ties. */
  function Merged<T>(a: seq<Entry<T>>, b: seq<Entry<T>>, less: (T, T) -> bool): seq<Entry<T>>
    decreases |a| + |b|
  {
    if a == [] then b
    else if b == [] then a
    else if less(b[0].item, a[0].item) then [b[0]] + Merged(a, b[1..], less)
    else [a[0]] + Merged(a[1..], b, less)
  }

  lemma {:induction false} MergedKeeps<T>(a: seq<Entry<T>>, b: seq<Entry<T>>, less: (T, T) -> bool)
    ensures multiset(Merged(a, b, less)) == multiset(a) + multiset(b)
    decreases |a| + |b|
  {
    if a != [] && b != [] {
      if less(b[0].item, a[0].item) {
        MergedKeeps(a, b[1..], less);
        assert b == [b[0]] + b[1..];
      } else {
        MergedKeeps(a[1..], b, less);
        assert a == [a[0]] + a[1..];
      }
    }
  }

  lemma ConsSorts<T(!new)>(e: Entry<T>, s: seq<Entry<T>>, a: seq<Entry<T>>, b: seq<Entry<T>>, less: (T, T) -> bool)
    requires Sorted(s, less) && multiset(s) == multiset(a) + multiset(b)
    requires forall x | x in a :: !less(x.item, e.item)
    requires forall x | x in b :: !less(x.item, e.item)
    ensures Sorted([e] + s, less)
  {
    forall j | 0 <= j < |s| ensures !less(s[j].item, e.item) {
      assert s[j] in multiset(s);
      assert s[j] in a || s[j] in b;
    }
  }

  lemma HeadIsLeast<T(!new)>(s: seq<Entry<T>>, bound: T, less: (T, T) -> bool)
    requires IsOrder(less) && Sorted(s, less) && s != [] && !less(s[0].item, bound)
    ensures forall x | x in s :: !less(x.item, bound)
  {
    forall i | 0 <= i < |s| ensures !less(s[i].item, bound) {
      var e, head := s[i].item, s[0].item;
      assert less(e, bound) ==> less(e, head) || less(head, bound);
    }
  }

  lemma {:induction false} MergedSorts<T(!new)>(a: seq<Entry<T>>, b: seq<Entry<T>>, less: (T, T) -> bool)
    requires IsOrder(less) && Sorted(a, less) && Sorted(b, less)
    ensures Sorted(Merged(a, b, less), less)
    decreases |a| + |b|
  {
    if a != [] && b != [] {
      if less(b[0].item, a[0].item) {
        MergedSorts(a, b[1..], less);
        MergedKeeps(a, b[1..], less);
        HeadIsLeast(a, b[0].item, less);
        TailIsLeast(b, less);
        ConsSorts(b[0], Merged(a, b[1..], less), a, b[1..], less);
      } else {
        MergedSorts(a[1..], b, less);
        MergedKeeps(a[1..], b, less);
        HeadIsLeast(b, a[0].item, less);
        TailIsLeast(a, less);
        ConsSorts(a[0], Merged(a[1..], b, less), a[1..], b, less);
      }
    }
  }

  lemma TailIsLeast<T(!new)>(s: seq<Entry<T>>, less: (T, T) -> bool)
    requires Sorted(s, less) && s != []
    ensures Sorted(s[1..], less) && forall x | x in s[1..] :: !less(x.item, s[0].item)
  {
  }

  // ----- weights -----

  ghost function Total<T>(s: seq<Entry<T>>): nat {
    if s == [] then 0 else Total(s[..|s| - 1]) + s[|s| - 1].weight
  }

  /** The weight of an entry and all before it. */
  ghost function Cumulated<T>(s: seq<Entry<T>>, i: nat): nat
    requires i < |s|
  {
    Total(s[..i + 1])
  }

  /** Does x count towards the rank of the item? */
  predicate Counts<T>(less: (T, T) -> bool, x: T, item: T, inclusive: bool) {
    if inclusive then !less(item, x) else less(x, item)
  }

  /** The weight of all entries up to the item. */
  ghost function WeightUpTo<T>(s: seq<Entry<T>>, less: (T, T) -> bool, item: T, inclusive: bool): nat {
    if s == [] then 0
    else
      WeightUpTo(s[..|s| - 1], less, item, inclusive)
      + if Counts(less, s[|s| - 1].item, item, inclusive) then s[|s| - 1].weight else 0
  }

  lemma {:induction false} TotalGrows<T>(s: seq<Entry<T>>, p: nat)
    requires p <= |s|
    ensures Total(s[..p]) <= Total(s)
  {
    if p < |s| {
      TotalGrows(s[..|s| - 1], p);
      assert s[..|s| - 1][..p] == s[..p];
    } else {
      assert s[..p] == s;
    }
  }

  lemma {:induction false} AtMostPrefix<T>(s: seq<Entry<T>>, less: (T, T) -> bool, item: T, inclusive: bool, p: nat)
    requires p <= |s| && forall i | p <= i < |s| :: !Counts(less, s[i].item, item, inclusive)
    ensures WeightUpTo(s, less, item, inclusive) <= Total(s[..p])
  {
    if s != [] {
      var front := s[..|s| - 1];
      if p < |s| {
        AtMostPrefix(front, less, item, inclusive, p);
        assert front[..p] == s[..p];
      } else {
        AtMostPrefix(front, less, item, inclusive, p - 1);
        assert front[..p - 1] == front && s[..p] == s;
      }
    }
  }

  lemma {:induction false} AtLeastPrefix<T>(s: seq<Entry<T>>, less: (T, T) -> bool, item: T, inclusive: bool, p: nat)
    requires p <= |s| && forall i | 0 <= i < p :: Counts(less, s[i].item, item, inclusive)
    ensures WeightUpTo(s, less, item, inclusive) >= Total(s[..p])
  {
    if s != [] {
      var front := s[..|s| - 1];
      if p < |s| {
        AtLeastPrefix(front, less, item, inclusive, p);
        assert front[..p] == s[..p];
      } else {
        AtLeastPrefix(front, less, item, inclusive, p - 1);
        assert front[..p - 1] == front && s[..p] == s;
      }
    }
  }

  // ----- ranks and quantiles of sorted entries -----

  ghost function Rank<T>(s: seq<Entry<T>>, less: (T, T) -> bool, item: T, inclusive: bool): real
    requires Total(s) > 0
  {
    WeightUpTo(s, less, item, inclusive) as real / Total(s) as real
  }

  ghost predicate Retains<T>(s: seq<Entry<T>>, item: T) {
    exists i :: 0 <= i < |s| && s[i].item == item
  }

  /** The least retained item whose inclusive rank reaches r. */
  ghost predicate IsLeastReaching<T(!new)>(s: seq<Entry<T>>, less: (T, T) -> bool, r: real, q: T)
    requires Total(s) > 0
  {
    && Retains(s, q) && Rank(s, less, q, true) >= r
    && forall x | Retains(s, x) && less(x, q) :: Rank(s, less, x, true) < r
  }

  /** The greatest retained item whose exclusive rank does not exceed r. */
  ghost predicate IsGreatestWithin<T(!new)>(s: seq<Entry<T>>, less: (T, T) -> bool, r: real, q: T)
    requires Total(s) > 0
  {
    && Retains(s, q) && Rank(s, less, q, false) <= r
    && forall x | Retains(s, x) && less(q, x) :: Rank(s, less, x, false) > r
  }

  function Share(r: real, total: nat): real {
    r * total as real
  }

  /** Ranks compare to r as weights compare to its share of the total weight. */
  lemma Quotients<T>(s: seq<Entry<T>>, less: (T, T) -> bool, item: T, inclusive: bool, r: real, share: real)
    requires Total(s) > 0 && share == Share(r, Total(s))
    ensures Rank(s, less, item, inclusive) >= r <==> WeightUpTo(s, less, item, inclusive) as real >= share
    ensures Rank(s, less, item, inclusive) <= r <==> WeightUpTo(s, less, item, inclusive) as real <= share
  {
    var w: nat, total: nat := WeightUpTo(s, less, item, inclusive), Total(s);
    hide Total, WeightUpTo;
    CompareQuotient(w as real, total as real, r);
  }

  lemma CompareQuotient(x: real, t: real, r: real)
    requires t > 0.0
    ensures x / t >= r <==> x >= r * t
    ensures x / t <= r <==> x <= r * t
  {
    var q := x / t;
    assert x == q * t;
    if q > r {
      assert (q - r) * t > 0.0;
    } else if q < r {
      assert (r - q) * t > 0.0;
    }
  }

  /** The first entry at which the cumulated weight reaches r. */
  lemma FirstReaching<T(!new)>(s: seq<Entry<T>>, less: (T, T) -> bool, r: real, share: real, i: nat)
    requires IsOrder(less) && Sorted(s, less) && Total(s) > 0 && i < |s| && share == Share(r, Total(s))
    requires Total(s[..i + 1]) as real >= share
    requires i > 0 ==> (Total(s[..i]) as real) < share
    ensures IsLeastReaching(s, less, r, s[i].item)
  {
    var q := s[i].item;
    hide Total, WeightUpTo, Rank, IsOrder, Sorted;
    ReachedAt(s, less, i);
    AtLeastPrefix(s, less, q, true, i + 1);
    Quotients(s, less, q, true, r, share);
    forall x | Retains(s, x) && less(x, q) ensures Rank(s, less, x, true) < r {
      BelowEntry(s, less, x, i);
      AtMostPrefix(s, less, x, true, i);
      Quotients(s, less, x, true, r, share);
    }
  }

  lemma ReachedAt<T(!new)>(s: seq<Entry<T>>, less: (T, T) -> bool, i: nat)
    requires IsOrder(less) && Sorted(s, less) && i < |s|
    ensures forall j | 0 <= j < i + 1 :: Counts(less, s[j].item, s[i].item, true)
    ensures forall j | i <= j < |s| :: !Counts(less, s[j].item, s[i].item, false)
    ensures Retains(s, s[i].item)
  {
  }

  lemma BelowEntry<T(!new)>(s: seq<Entry<T>>, less: (T, T) -> bool, x: T, i: nat)
    requires IsOrder(less) && Sorted(s, less) && i < |s| && Retains(s, x) && less(x, s[i].item)
    ensures i > 0 && forall j | i <= j < |s| :: !Counts(less, s[j].item, x, true)
  {
    var k :| 0 <= k < |s| && s[k].item == x;
    forall j | i <= j < |s| ensures less(x, s[j].item) {
      var e, q := s[j].item, s[i].item;
      assert less(x, q) ==> less(x, e) || less(e, q);
    }
  }

  /** The last entry before which the cumulated weight stays within r. */
  lemma LastWithin<T(!new)>(s: seq<Entry<T>>, less: (T, T) -> bool, r: real, share: real, i: nat)
    requires IsOrder(less) && Sorted(s, less) && Total(s) > 0 && i < |s| && share == Share(r, Total(s))
    requires Total(s[..i]) as real <= share
    requires i + 1 < |s| ==> Total(s[..i + 1]) as real > share
    ensures IsGreatestWithin(s, less, r, s[i].item)
  {
    var q := s[i].item;
    hide Total, WeightUpTo, Rank, IsOrder, Sorted;
    ReachedAt(s, less, i);
    AtMostPrefix(s, less, q, false, i);
    Quotients(s, less, q, false, r, share);
    forall x | Retains(s, x) && less(q, x) ensures Rank(s, less, x, false) > r {
      AboveEntry(s, less, x, i);
      AtLeastPrefix(s, less, x, false, i + 1);
      Quotients(s, less, x, false, r, share);
    }
  }

  lemma AboveEntry<T(!new)>(s: seq<Entry<T>>, less: (T, T) -> bool, x: T, i: nat)
    requires IsOrder(less) && Sorted(s, less) && i < |s| && Retains(s, x) && less(s[i].item, x)
    ensures i + 1 < |s| && forall j | 0 <= j < i + 1 :: Counts(less, s[j].item, x, false)
  {
    var k :| 0 <= k < |s| && s[k].item == x;
    forall j | 0 <= j < i + 1 ensures less(s[j].item, x) {
      var e, q := s[j].item, s[i].item;
      assert less(q, x) ==> less(q, e) || less(e, x);
    }
  }

  // ----- the view -----

  class QuantilesSortedView<T(!new)> {
    const less: (T, T) -> bool
    var totalWeight: nat
    var entries: seq<Entry<T>>
    ghost var retained: seq<Entry<T>>
    ghost var cumulative: bool

    /** Before the conversion the entries are those retained; after it, their weights are added up. */
    ghost predicate Valid()
      reads this
    {
      && IsOrder(less) && Sorted(retained, less)
      && (forall i | 0 <= i < |retained| :: retained[i].weight > 0)
      && if cumulative then IsCumulative(entries, retained) && totalWeight == Total(retained)
         else entries == retained && totalWeight == 0
    }

    constructor (less: (T, T) -> bool)
      requires IsOrder(less)
      ensures Valid() && !cumulative && retained == [] && this.less == less
    {
      this.less := less;
      totalWeight, entries, retained, cumulative := 0, [], [], false;
    }

    /** Merges sorted items in, all of one weight. */
    method Add(items: seq<T>, weight: nat)
      requires Valid() && !cumulative && weight > 0
      requires forall i, j | 0 <= i < j < |items| :: !less(items[j], items[i])
      modifies this
      ensures Valid() && !cumulative
      ensures multiset(retained) == multiset(old(retained)) + multiset(Weighted(items, weight))
    {
      var sizeBefore := |entries|;
      var added := [];
      for i := 0 to |items|
        invariant added == Weighted(items[..i], weight)
      {
        added := added + [Entry(items[i], weight)];
      }
      assert items[..|items|] == items;
      hide IsOrder, Merged;
      MergedKeeps(entries, added, less);
      MergedSorts(entries, added, less);
      MergedWeights(Merged(entries, added, less), entries, added);
      if sizeBefore > 0 {
        entries := Merged(entries, added, less); // std::merge
      } else {
        entries := added;
        NothingMerged(added, less);
      }
      retained := entries;
    }

    method ConvertToCumulative()
      requires Valid() && !cumulative
      modifies this
      ensures Valid() && cumulative && retained == old(retained)
    {
      hide IsOrder, Sorted, Total;
      assert retained[..0] == [] && Total<T>([]) == 0 by {
        NoWeight<T>();
      }
      for i := 0 to |entries|
        invariant |entries| == |retained| && retained == old(retained) && totalWeight == Total(retained[..i])
        invariant forall j: nat | j < i :: entries[j] == Entry(retained[j].item, Cumulated(retained, j))
        invariant forall j | i <= j < |entries| :: entries[j] == retained[j]
      {
        hide IsOrder, Sorted, Total;
        NextTotal(retained, i);
        totalWeight := totalWeight + entries[i].weight;
        entries := entries[i := entries[i].(weight := totalWeight)];
      }
      assert retained[..|retained|] == retained;
      cumulative := true;
    }

    /** The part of the weight that lies up to, or strictly below, the item; no view of an empty
        sketch has ranks. */
    method GetRank(item: T, inclusive: bool) returns (rank: Option<real>)
      requires Valid() && cumulative
      ensures rank.None? <==> retained == []
      ensures rank.Some? ==> Total(retained) > 0 && rank.value == Rank(retained, less, item, inclusive)
    {
      if |entries| == 0 {
        return None;
      }
      SomeWeight(retained);
      hide IsOrder, Sorted, Total, WeightUpTo;
      var p := BoundByItem(item, inclusive);
      AtMostPrefix(retained, less, item, inclusive, p);
      AtLeastPrefix(retained, less, item, inclusive, p);
      // we need the item just before
      if p == 0 {
        assert retained[..0] == [];
        NoWeight<T>();
        return Some(0.0);
      }
      return Some(entries[p - 1].weight as real / totalWeight as real);
    }

    /** std::upper_bound or std::lower_bound on the items. */
    method BoundByItem(item: T, inclusive: bool) returns (p: nat)
      requires Valid() && cumulative
      ensures p <= |entries| == |retained|
      ensures forall i | 0 <= i < p :: Counts(less, retained[i].item, item, inclusive)
      ensures forall i | p <= i < |retained| :: !Counts(less, retained[i].item, item, inclusive)
    {
      var lo, hi := 0, |entries|;
      while lo < hi
        invariant lo <= hi <= |entries|
        invariant forall i | 0 <= i < lo :: Counts(less, retained[i].item, item, inclusive)
        invariant forall i | hi <= i < |retained| :: !Counts(less, retained[i].item, item, inclusive)
      {
        hide IsOrder, Sorted, Total, Counts;
        var mid := (lo + hi) / 2;
        CountsDownward(retained, less, item, inclusive, mid);
        if Counts(less, entries[mid].item, item, inclusive) {
          lo := mid + 1;
        } else {
          hi := mid;
        }
      }
      p := lo;
    }

    /** std::lower_bound or std::upper_bound on the cumulative weights. */
    method BoundByWeight(weight: int, inclusive: bool) returns (p: nat)
      requires Valid() && cumulative
      ensures p <= |entries| == |retained|
      ensures forall i: nat | i < p :: Under(Cumulated(retained, i), weight, inclusive)
      ensures forall i: nat | p <= i < |retained| :: !Under(Cumulated(retained, i), weight, inclusive)
    {
      var lo, hi := 0, |entries|;
      while lo < hi
        invariant lo <= hi <= |entries|
        invariant forall i: nat | i < lo :: Under(Cumulated(retained, i), weight, inclusive)
        invariant forall i: nat | hi <= i < |retained| :: !Under(Cumulated(retained, i), weight, inclusive)
      {
        hide IsOrder, Sorted, Total, Under;
        var mid := (lo + hi) / 2;
        UnderDownward(retained, weight, inclusive, mid);
        if Under(entries[mid].weight, weight, inclusive) {
          lo := mid + 1;
        } else {
          hi := mid;
        }
      }
      p := lo;
    }

    /** The inverse of the rank: the least item whose inclusive rank reaches the given one, or the
        greatest whose exclusive rank does not exceed it. */
    method GetQuantile(rank: real, inclusive: bool) returns (quantile: Option<T>)
      requires Valid() && cumulative && 0.0 <= rank <= 1.0
      ensures quantile.None? <==> retained == []
      ensures quantile.Some? && inclusive ==> Total(retained) > 0 && IsLeastReaching(retained, less, rank, quantile.value)
      ensures quantile.Some? && !inclusive ==> Total(retained) > 0 && IsGreatestWithin(retained, less, rank, quantile.value)
    {
      if |entries| == 0 {
        return None;
      }
      SomeWeight(retained);
      hide IsOrder, Sorted, Total, IsLeastReaching, IsGreatestWithin, Share;
      var share := Share(rank, totalWeight);
      ShareOfAll(rank, totalWeight);
      var weight := if inclusive then Ceiling(share) else share.Floor;
      var p := BoundByWeight(weight, inclusive);
      var i := if p == |entries| then |entries| - 1 else p;
      if inclusive {
        ReachesShare(retained, share, p);
        FirstReaching(retained, less, rank, share, i);
      } else {
        WithinShare(retained, share, p, i);
        LastWithin(retained, less, rank, share, i);
      }
      return Some(entries[i].item);
    }
  }

  predicate Under(w: nat, weight: int, inclusive: bool) {
    if inclusive then w < weight else w <= weight
  }

  /** std::ceil */
  function Ceiling(x: real): int {
    -(-x).Floor
  }

  lemma SomeWeight<T>(s: seq<Entry<T>>)
    requires s != [] && forall i | 0 <= i < |s| :: s[i].weight > 0
    ensures Total(s) > 0
  {
  }

  lemma CountsDownward<T(!new)>(s: seq<Entry<T>>, less: (T, T) -> bool, item: T, inclusive: bool, mid: nat)
    requires IsOrder(less) && Sorted(s, less) && mid < |s|
    ensures Counts(less, s[mid].item, item, inclusive) ==>
              forall i | 0 <= i <= mid :: Counts(less, s[i].item, item, inclusive)
    ensures !Counts(less, s[mid].item, item, inclusive) ==>
              forall i | mid <= i < |s| :: !Counts(less, s[i].item, item, inclusive)
  {
    forall i, j | 0 <= i < j < |s| && Counts(less, s[j].item, item, inclusive)
      ensures Counts(less, s[i].item, item, inclusive)
    {
      var a, b := s[i].item, s[j].item;
      if inclusive {
        assert less(item, a) ==> less(item, b) || less(b, a);
      } else {
        assert less(b, item) ==> less(b, a) || less(a, item);
      }
    }
  }

  lemma PrefixTotals<T>(s: seq<Entry<T>>, i: nat, j: nat)
    requires i <= j <= |s|
    ensures Total(s[..i]) <= Total(s[..j])
  {
    TotalGrows(s[..j], i);
    assert s[..j][..i] == s[..i];
  }

  lemma UnderDownward<T>(s: seq<Entry<T>>, weight: int, inclusive: bool, mid: nat)
    requires mid < |s|
    ensures Under(Cumulated(s, mid), weight, inclusive) ==>
              forall i: nat | i <= mid :: Under(Cumulated(s, i), weight, inclusive)
    ensures !Under(Cumulated(s, mid), weight, inclusive) ==>
              forall i: nat | mid <= i < |s| :: !Under(Cumulated(s, i), weight, inclusive)
  {
    forall i: nat, j: nat | i <= j < |s| ensures Cumulated(s, i) <= Cumulated(s, j) {
      PrefixTotals(s, i + 1, j + 1);
    }
    hide Cumulated;
  }

  /** A whole number reaches x exactly if it reaches the ceiling, and exceeds it exactly if it
      exceeds the floor. */
  lemma WholeWeights(w: int, x: real)
    ensures w >= Ceiling(x) <==> w as real >= x
    ensures w > x.Floor <==> w as real > x
  {
  }

  lemma ShareOfAll(rank: real, total: nat)
    requires 0.0 <= rank <= 1.0
    ensures 0.0 <= Share(rank, total) <= total as real
  {
    var t := total as real;
    assert rank * t >= 0.0;
    assert (1.0 - rank) * t >= 0.0;
    assert (1.0 - rank) * t == t - rank * t;
  }

  lemma ReachesShare<T>(s: seq<Entry<T>>, share: real, p: nat)
    requires s != [] && p <= |s| && 0.0 <= share <= Total(s) as real
    requires forall i: nat | i < p :: Under(Cumulated(s, i), Ceiling(share), true)
    requires forall i: nat | p <= i < |s| :: !Under(Cumulated(s, i), Ceiling(share), true)
    ensures p < |s| && Total(s[..p + 1]) as real >= share
    ensures p > 0 ==> (Total(s[..p]) as real) < share
  {
    assert s[..|s|] == s;
    var last: nat := |s| - 1;
    assert Cumulated(s, last) == Total(s);
    hide Total, Ceiling;
    WholeWeights(Total(s), share);
    assert p < |s|;
    WholeWeights(Cumulated(s, p), share);
    if p > 0 {
      WholeWeights(Cumulated(s, p - 1), share);
    }
  }

  lemma WithinShare<T>(s: seq<Entry<T>>, share: real, p: nat, i: nat)
    requires s != [] && p <= |s| && 0.0 <= share <= Total(s) as real
    requires forall i: nat | i < p :: Under(Cumulated(s, i), share.Floor, false)
    requires forall i: nat | p <= i < |s| :: !Under(Cumulated(s, i), share.Floor, false)
    requires i == if p == |s| then |s| - 1 else p
    ensures Total(s[..i]) as real <= share
    ensures i + 1 < |s| ==> Total(s[..i + 1]) as real > share
  {
    NoWeight<T>();
    assert s[..0] == [];
    hide Total;
    if i > 0 {
      WholeWeights(Cumulated(s, i - 1), share);
    }
    if i + 1 < |s| {
      WholeWeights(Cumulated(s, i), share);
    }
  }

  // ----- ranks and quantiles are adjoint -----

  lemma RanksGrow<T(!new)>(s: seq<Entry<T>>, less: (T, T) -> bool, a: T, b: T, inclusive: bool)
    requires IsOrder(less) && Total(s) > 0 && !less(b, a)
    ensures Rank(s, less, a, inclusive) <= Rank(s, less, b, inclusive)
  {
    hide Total, WeightUpTo;
    WeightsGrow(s, less, a, b, inclusive);
    QuotientGrows(WeightUpTo(s, less, a, inclusive) as real, WeightUpTo(s, less, b, inclusive) as real, Total(s) as real);
  }

  lemma QuotientGrows(x: real, y: real, t: real)
    requires x <= y && t > 0.0
    ensures x / t <= y / t
  {
    assert (x / t) * t == x;
    CompareQuotient(y, t, x / t);
  }

  lemma {:induction false} WeightsGrow<T(!new)>(s: seq<Entry<T>>, less: (T, T) -> bool, a: T, b: T, inclusive: bool)
    requires IsOrder(less) && !less(b, a)
    ensures WeightUpTo(s, less, a, inclusive) <= WeightUpTo(s, less, b, inclusive)
  {
    if s != [] {
      WeightsGrow(s[..|s| - 1], less, a, b, inclusive);
      var e := s[|s| - 1].item;
      assert less(b, e) ==> less(b, a) || less(a, e);
      assert less(e, a) ==> less(e, b) || less(b, a);
    }
  }

  /** A retained item's inclusive rank reaches r exactly if the item is no less than the inclusive
      quantile of r; its exclusive rank stays within r exactly if it is no greater than the exclusive one. */
  lemma Adjoint<T(!new)>(s: seq<Entry<T>>, less: (T, T) -> bool, r: real, q: T, x: T)
    requires IsOrder(less) && Total(s) > 0 && Retains(s, x)
    ensures IsLeastReaching(s, less, r, q) ==> (Rank(s, less, x, true) >= r <==> !less(x, q))
    ensures IsGreatestWithin(s, less, r, q) ==> (Rank(s, less, x, false) <= r <==> !less(q, x))
  {
    if !less(x, q) {
      RanksGrow(s, less, q, x, true);
    }
    if !less(q, x) {
      RanksGrow(s, less, x, q, false);
    }
    hide Rank, Total;
  }

  /** The items with their common weight. */
  function Weighted<T>(items: seq<T>, weight: nat): seq<Entry<T>> {
    seq(|items|, i requires 0 <= i < |items| => Entry(items[i], weight))
  }

  /** The weight of an entry includes those of all entries before it. */
  ghost predicate IsCumulative<T>(entries: seq<Entry<T>>, retained: seq<Entry<T>>) {
    && |entries| == |retained|
    && forall i: nat | i < |entries| :: entries[i] == Entry(retained[i].item, Cumulated(retained, i))
  }

  lemma MergedWeights<T>(s: seq<Entry<T>>, a: seq<Entry<T>>, b: seq<Entry<T>>)
    requires multiset(s) == multiset(a) + multiset(b)
    requires (forall i | 0 <= i < |a| :: a[i].weight > 0) && forall i | 0 <= i < |b| :: b[i].weight > 0
    ensures forall i | 0 <= i < |s| :: s[i].weight > 0
  {
    forall i | 0 <= i < |s| ensures s[i].weight > 0 {
      assert s[i] in multiset(s);
      assert s[i] in a || s[i] in b;
    }
  }

  lemma NothingMerged<T>(s: seq<Entry<T>>, less: (T, T) -> bool)
    ensures Merged([], s, less) == s
  {
  }

  lemma NoWeight<T>()
    ensures Total<T>([]) == 0
  {
  }

  lemma NextTotal<T>(s: seq<Entry<T>>, i: nat)
    requires i < |s|
    ensures Total(s[..i + 1]) == Total(s[..i]) + s[i].weight
  {
    assert s[..i + 1][..i] == s[..i];
  }
}
