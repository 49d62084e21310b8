/** The set of surprising row/column pairs: a linear-probing table of 32-bit items, probed from
    the high bits of the item, that deletes by re-inserting the rest of the cluster
    (cpc/include/u32_table_impl.hpp). */
module U32Tables {
  import opened Words
  import opened Probing

  const EMPTY := 0xFFFF_FFFF
  const UPSIZE_NUMER := 3
  const UPSIZE_DENOM := 4
  const DOWNSIZE_NUMER := 1
  const DOWNSIZE_DENOM := 4

  // ----- sizes -----

  /** Sizes are computed by 1 << lg_size, an int of 32 bits, which stands for no more than 2^30. */
  const MAX_LG_SIZE := 30

  /** The largest table that lookups can work with: no larger than the universe of items, which they
      shift down to the size of the table, and than a size can be. */
  function LargestLgSize(numValidBits: nat): nat {
    if numValidBits <= MAX_LG_SIZE then numValidBits else MAX_LG_SIZE
  }

  /** The largest table is at most 3/4 full with n items. */
  predicate Roomy(n: nat, numValidBits: nat) {
    UPSIZE_DENOM * n <= UPSIZE_NUMER * Pow2(LargestLgSize(numValidBits))
  }

  /** The size of a table that has taken in n items, starting from a given size: grown whenever, and only
      when, it would have been more than 3/4 full. */
  ghost predicate JustFits(n: nat, lgSize: nat, start: nat) {
    && lgSize >= start && UPSIZE_DENOM * n <= UPSIZE_NUMER * Pow2(lgSize)
    && (lgSize > start ==> UPSIZE_DENOM * n > UPSIZE_NUMER * Pow2(lgSize - 1))
  }

  lemma NextFits(n: nat, lgSize: nat, start: nat)
    requires JustFits(n, lgSize, start) && lgSize >= 2
    ensures JustFits(n + 1, if UPSIZE_DENOM * (n + 1) > UPSIZE_NUMER * Pow2(lgSize) then lgSize + 1 else lgSize, start)
  {
    Pow2Mono(2, lgSize);
  }

  /** Up to that size, neither side of the tests for growth and shrinking is beyond 32 bits. */
  lemma ProductsFit(n: nat, lgSize: nat)
    requires lgSize <= MAX_LG_SIZE && UPSIZE_DENOM * n <= UPSIZE_NUMER * Pow2(lgSize)
    ensures UPSIZE_DENOM * (n + 1) < U32_SIZE && UPSIZE_NUMER * Pow2(lgSize) < U32_SIZE
    ensures DOWNSIZE_DENOM * n < U32_SIZE && DOWNSIZE_NUMER * Pow2(lgSize) < U32_SIZE
  {
    Pow2Mono(lgSize, MAX_LG_SIZE);
    Pow2Values();
    assert Pow2(32) == 4 * Pow2(30);
    hide Pow2;
  }

  // ----- what an array of slots stores -----

  /** The first slot on an item's probe path: its high bits. */
  function Home(item: nat, d: nat): nat
    requires d > 0
  {
    item / d
  }

  lemma HomeIsShifted(item: nat, numValidBits: nat, lgSize: nat)
    requires lgSize <= numValidBits
    ensures Home(item, Pow2(numValidBits - lgSize)) == Shr(item, numValidBits - lgSize)
  {
    ShrIsDiv(item, numValidBits - lgSize);
  }

  ghost predicate Holds(s: seq<nat>, items: set<nat>) {
    && (forall x | x in items :: x in s && x != EMPTY)
    && (forall i | 0 <= i < |s| && s[i] != EMPTY :: s[i] in items)
  }

  ghost predicate Distinct(s: seq<nat>) {
    forall i, j | 0 <= i < j < |s| && s[i] != EMPTY :: s[i] != s[j]
  }

  /** Every slot on the probe path to the item in slot i is occupied. */
  ghost predicate Reachable(s: seq<nat>, d: nat, i: nat)
    requires d > 0 && i < |s|
  {
    Home(s[i], d) < |s| && forall j: nat | j < |s| && InArc(Home(s[i], d), j, i) :: s[j] != EMPTY
  }

  ghost predicate IsTable(s: seq<nat>, d: nat, items: set<nat>)
    requires d > 0
  {
    && Holds(s, items)
    && Distinct(s)
    && forall i: nat | i < |s| && s[i] != EMPTY :: Reachable(s, d, i)
  }

  /** What a probe for item that stops at r has seen. */
  ghost predicate ProbedTo(s: seq<nat>, d: nat, item: nat, r: nat)
    requires d > 0
  {
    && r < |s| && Home(item, d) < |s|
    && (s[r] == item || s[r] == EMPTY)
    && forall j: nat | j < |s| && InArc(Home(item, d), j, r) :: s[j] != EMPTY && s[j] != item
  }

  lemma ProbeFinds(s: seq<nat>, d: nat, items: set<nat>, item: nat, r: nat)
    requires d > 0 && IsTable(s, d, items) && item != EMPTY && ProbedTo(s, d, item, r)
    ensures r < |s| && (s[r] == item || s[r] == EMPTY)
    ensures item in items <==> s[r] == item
  {
    hide Home;
    var h := Home(item, d);
    if item in items {
      var i: nat :| i < |s| && s[i] == item;
      assert Reachable(s, d, i);
      assert i == r || InArc(h, i, r) || InArc(h, r, i);
    }
  }

  lemma InsertKeeps(s: seq<nat>, d: nat, items: set<nat>, item: nat, r: nat)
    requires d > 0 && IsTable(s, d, items) && item != EMPTY && item !in items
    requires ProbedTo(s, d, item, r) && s[r] == EMPTY
    ensures IsTable(s[r := item], d, items + {item})
  {
    hide Home;
    var s' := s[r := item];
    forall x | x in items + {item} ensures x in s' {
      if x in items {
        var i :| 0 <= i < |s| && s[i] == x;
        assert s'[i] == x;
      } else {
        assert s'[r] == x;
      }
    }
    forall i: nat | i < |s'| && s'[i] != EMPTY ensures Reachable(s', d, i) {
      if i != r {
        assert Reachable(s, d, i);
      }
    }
  }

  function Elements(s: seq<nat>): set<nat> {
    set x | x in s
  }

  lemma {:induction false} ElementsBound(s: seq<nat>)
    ensures |Elements(s)| <= |s|
  {
    if s != [] {
      var t, last := s[..|s| - 1], s[|s| - 1];
      assert s == t + [last];
      assert Elements(s) == Elements(t) + {last};
      ElementsBound(t);
    }
  }

  ghost predicate NoDuplicates(s: seq<nat>) {
    forall i, j | 0 <= i < j < |s| :: s[i] != s[j]
  }

  lemma {:induction false} DistinctCount(s: seq<nat>)
    requires NoDuplicates(s)
    ensures |Elements(s)| == |s|
  {
    if s != [] {
      var t, last := s[..|s| - 1], s[|s| - 1];
      DistinctCount(t);
      assert s == t + [last];
      assert last !in Elements(t);
      assert Elements(s) == Elements(t) + {last};
    }
  }

  /** A table with fewer items than slots has an empty slot. */
  lemma HasEmpty(s: seq<nat>, items: set<nat>)
    requires Holds(s, items) && Distinct(s) && |items| < |s|
    ensures EMPTY in s
  {
    if EMPTY !in s {
      assert Elements(s) == items by {
        assert forall x :: x in s ==> exists i :: 0 <= i < |s| && s[i] == x;
      }
      DistinctCount(s);
    }
  }

  // ----- deletion: the state while the rest of the cluster is re-inserted -----

  /** On the line that starts behind the empty slot e: every slot from the item's home to slot i
      is occupied, except that if slot i lies at or behind hi the slots in [lo, hi) may be empty. */
  ghost predicate Behind(s: seq<nat>, d: nat, e: nat, lo: int, hi: int, i: nat)
    requires d > 0 && i < |s|
  {
    var h := Home(s[i], d);
    && 0 <= h < |s|
    && Rel(e, |s|, h) <= Rel(e, |s|, i)
    && forall j: nat | j < |s| && Rel(e, |s|, h) <= Rel(e, |s|, j) < Rel(e, |s|, i) ::
         s[j] != EMPTY || lo <= Rel(e, |s|, j) < hi <= Rel(e, |s|, i)
  }

  /** e is a slot that stays empty. Slots from hi on are not yet re-inserted: their probe paths
      may cross the slots freed so far, which lie in [lo, hi). */
  ghost predicate Reinserting(s: seq<nat>, d: nat, items: set<nat>, e: nat, lo: int, hi: int)
    requires d > 0
  {
    && Holds(s, items)
    && Distinct(s)
    && e < |s| && s[e] == EMPTY
    && 0 <= lo < hi < |s|
    && forall i: nat | i < |s| && s[i] != EMPTY :: Behind(s, d, e, lo, hi, i)
  }

  lemma StartReinserting(s: seq<nat>, d: nat, items: set<nat>, e: nat, index: nat)
    requires d > 0 && IsTable(s, d, items) && index < |s| && e < |s|
    requires s[index] != EMPTY && s[e] == EMPTY
    ensures var lo := Rel(e, |s|, index);
            Reinserting(s[index := EMPTY], d, items - {s[index]}, e, lo, lo + 1)
  {
    hide Home;
    var n := |s|;
    var s' := s[index := EMPTY];
    forall x | x in items - {s[index]} ensures x in s' {
      var i :| 0 <= i < n && s[i] == x;
      assert s'[i] == x;
    }
    var lo := Rel(e, n, index);
    forall i: nat | i < n && s'[i] != EMPTY ensures Behind(s', d, e, lo, lo + 1, i) {
      assert Reachable(s, d, i);
      ArcIsInterval(e, n, Home(s[i], d), i);
    }
  }

  /** The items of a longer prefix of the slots. */
  lemma HoldsNext(s: seq<nat>, i: nat, items: set<nat>, all: set<nat>)
    requires Holds(s, all) && Distinct(s) && i < |s| && Holds(s[..i], items) && items <= all
    ensures s[i] == EMPTY ==> Holds(s[..i + 1], items)
    ensures s[i] != EMPTY ==> s[i] in all && s[i] !in items && Holds(s[..i + 1], items + {s[i]}) && |items| < |all|
  {
    assert s[..i + 1] == s[..i] + [s[i]];
    if s[i] != EMPTY {
      SubsetSize(items + {s[i]}, all);
    }
  }

  lemma HoldsNothing(s: seq<nat>)
    ensures Holds(s[..0], {})
  {
  }

  lemma HoldsUnique(s: seq<nat>, items: set<nat>, all: set<nat>)
    requires Holds(s, all) && Holds(s[..|s|], items)
    ensures items == all
  {
    assert s[..|s|] == s;
  }

  lemma AllEmpty(n: nat, d: nat)
    requires d > 0
    ensures IsTable(seq(n, _ => EMPTY), d, {})
  {
  }

  lemma MoveItem(s: seq<nat>, items: set<nat>, probe: nat, r: nat)
    requires Holds(s, items) && Distinct(s)
    requires probe < |s| && r < |s| && s[probe] != EMPTY && (r == probe || s[r] == EMPTY)
    ensures Holds(s[probe := EMPTY][r := s[probe]], items)
    ensures Distinct(s[probe := EMPTY][r := s[probe]])
  {
    var s' := s[probe := EMPTY][r := s[probe]];
    forall y | y in items ensures y in s' {
      var i :| 0 <= i < |s| && s[i] == y;
      assert s'[if i == probe then r else i] == y;
    }
  }

  /** The probe for an item just taken out of slot probe ends there at the latest. */
  lemma StopsByProbe(t: seq<nat>, d: nat, item: nat, e: nat, probe: nat, r: nat)
    requires d > 0 && ProbedTo(t, d, item, r) && item !in t
    requires e < |t| && t[e] == EMPTY && probe < |t| && t[probe] == EMPTY
    requires Rel(e, |t|, Home(item, d)) <= Rel(e, |t|, probe)
    ensures r < |t| && t[r] == EMPTY
    ensures 0 <= Home(item, d) < |t|
    ensures Rel(e, |t|, Home(item, d)) <= Rel(e, |t|, r) <= Rel(e, |t|, probe)
    ensures forall j: nat | j < |t| && Rel(e, |t|, Home(item, d)) <= Rel(e, |t|, j) < Rel(e, |t|, r) :: t[j] != EMPTY
  {
    hide Home;
    ArcIsInterval(e, |t|, Home(item, d), r);
    assert !InArc(Home(item, d), probe, r);
  }

  lemma StepBehind(s: seq<nat>, d: nat, e: nat, lo: int, probe: nat, r: nat)
    requires d > 0 && probe < |s| && e < |s| && r < |s| && s[probe] != EMPTY && s[probe := EMPTY][r] == EMPTY
    requires 0 <= lo < Rel(e, |s|, probe)
    requires forall i: nat | i < |s| && s[i] != EMPTY :: Behind(s, d, e, lo, Rel(e, |s|, probe), i)
    requires Rel(e, |s|, Home(s[probe], d)) <= Rel(e, |s|, r) <= Rel(e, |s|, probe)
    requires forall j: nat | j < |s| && Rel(e, |s|, Home(s[probe], d)) <= Rel(e, |s|, j) < Rel(e, |s|, r) ::
               s[probe := EMPTY][j] != EMPTY
    ensures var s' := s[probe := EMPTY][r := s[probe]];
            forall i: nat | i < |s| && s'[i] != EMPTY :: Behind(s', d, e, lo, Rel(e, |s|, probe) + 1, i)
  {
    hide Home;
    var s' := s[probe := EMPTY][r := s[probe]];
    forall i: nat | i < |s| && s'[i] != EMPTY ensures Behind(s', d, e, lo, Rel(e, |s|, probe) + 1, i) {
      assert Behind(s, d, e, lo, Rel(e, |s|, probe), if i == r then probe else i);
    }
  }

  lemma StepReinserting(s: seq<nat>, d: nat, items: set<nat>, e: nat, lo: int, probe: nat, r: nat)
    requires d > 0 && probe < |s| && e < |s| && s[probe] != EMPTY && s[probe] !in s[probe := EMPTY]
    requires Reinserting(s, d, items, e, lo, Rel(e, |s|, probe))
    requires ProbedTo(s[probe := EMPTY], d, s[probe], r)
    ensures r < |s| && s[probe := EMPTY][r] == EMPTY
    ensures Rel(e, |s|, Next(probe, |s|)) == Rel(e, |s|, probe) + 1
    ensures Reinserting(s[probe := EMPTY][r := s[probe]], d, items, e, lo, Rel(e, |s|, probe) + 1)
  {
    hide Home, ProbedTo, Holds, Distinct;
    assert Rel(e, |s|, Home(s[probe], d)) <= Rel(e, |s|, probe) by {
      assert Behind(s, d, e, lo, Rel(e, |s|, probe), probe);
    }
    hide Behind;
    StopsByProbe(s[probe := EMPTY], d, s[probe], e, probe, r);
    MoveItem(s, items, probe, r);
    StepBehind(s, d, e, lo, probe, r);
  }

  lemma TakeOut(s: seq<nat>, d: nat, items: set<nat>, e: nat, lo: int, probe: nat)
    requires d > 0 && probe < |s| && s[probe] != EMPTY
    requires Reinserting(s, d, items, e, lo, Rel(e, |s|, probe))
    ensures e < |s| && s[probe] in items
    ensures s[probe] !in s[probe := EMPTY] && EMPTY in s[probe := EMPTY]
  {
    assert s[probe := EMPTY][probe] == EMPTY;
  }

  /** Once the cluster has ended at probe, no path crosses a freed slot. */
  lemma ReachesAgain(s: seq<nat>, d: nat, e: nat, lo: int, probe: nat, i: nat)
    requires d > 0 && e < |s| && probe < |s| && s[probe] == EMPTY && i < |s| && s[i] != EMPTY
    requires lo < Rel(e, |s|, probe) && Behind(s, d, e, lo, Rel(e, |s|, probe), i)
    ensures Reachable(s, d, i)
  {
    hide Home;
    var n, h := |s|, Home(s[i], d);
    IntervalIsArc(e, n, h, i);
    assert Rel(e, n, probe) < Rel(e, n, h) || Rel(e, n, i) < Rel(e, n, probe);
  }

  lemma EndReinserting(s: seq<nat>, d: nat, items: set<nat>, e: nat, lo: int, probe: nat)
    requires d > 0 && probe < |s| && s[probe] == EMPTY
    requires Reinserting(s, d, items, e, lo, Rel(e, |s|, probe))
    ensures IsTable(s, d, items)
  {
    hide Holds, Distinct, Home, Behind, Reachable;
    forall i: nat | i < |s| && s[i] != EMPTY ensures Reachable(s, d, i) {
      ReachesAgain(s, d, e, lo, probe, i);
    }
  }

  // ----- the table -----

  class U32Table {
    var lgSize: nat
    var numValidBits: nat
    var numItems: nat
    var slots: seq<nat>
    ghost var items: set<nat>

    ghost predicate Stores()
      reads this
    {
      && 2 <= lgSize <= LargestLgSize(numValidBits) && numValidBits <= 32
      && |slots| == Pow2(lgSize)
      && (forall x | x in items :: x < Pow2(numValidBits))
      && IsTable(slots, Divisor(), items)
    }

    ghost predicate Valid()
      reads this
    {
      && Stores()
      && numItems == |items|
      && UPSIZE_DENOM * numItems <= UPSIZE_NUMER * |slots|
    }

    lemma SlotsHoldItems()
      requires Valid()
      ensures Holds(slots, items) && Distinct(slots)
      ensures 2 <= lgSize && |slots| == Pow2(lgSize) && numItems == |items|
    {
    }

    /** Items are shifted right by numValidBits - lgSize to find their first probe. */
    function Divisor(): (d: nat)
      requires lgSize <= numValidBits
      reads this`lgSize, this`numValidBits
      ensures d > 0
    {
      Pow2(numValidBits - lgSize)
    }

    /** That lookups can work with the size is not checked here. */
    constructor (lgSize: nat, numValidBits: nat)
      requires 2 <= lgSize && 1 <= numValidBits <= 32
      ensures lgSize <= LargestLgSize(numValidBits) ==> Valid()
      ensures items == {} && numItems == 0 && |slots| == Pow2(lgSize) && forall i | 0 <= i < |slots| :: slots[i] == EMPTY
      ensures this.lgSize == lgSize && this.numValidBits == numValidBits && JustFits(0, lgSize, lgSize)
    {
      this.lgSize, this.numValidBits, this.numItems := lgSize, numValidBits, 0;
      this.slots := seq(Pow2(lgSize), _ => EMPTY);
      this.items := {};
    }

    constructor Copy(other: U32Table)
      requires other.Valid()
      ensures Valid() && items == other.items && numValidBits == other.numValidBits
      ensures slots == other.slots && lgSize == other.lgSize
    {
      lgSize, numValidBits, numItems := other.lgSize, other.numValidBits, other.numItems;
      slots := other.slots;
      items := other.items;
    }

    method Clear()
      requires Valid()
      modifies this
      ensures Valid() && items == {}
      ensures lgSize == old(lgSize) && numValidBits == old(numValidBits)
    {
      slots := seq(|slots|, _ => EMPTY);
      numItems := 0;
      items := {};
    }

    /** The slot that holds item, or else the empty slot where its probe path ends. */
    method Lookup(item: nat) returns (r: nat)
      requires 2 <= lgSize <= numValidBits <= 32 && |slots| == Pow2(lgSize)
      requires item < Pow2(numValidBits) && item != EMPTY && EMPTY in slots
      ensures r < |slots| && ProbedTo(slots, Divisor(), item, r)
    {
      hide Home;
      var size := |slots|;
      var probe: nat := Home(item, Divisor());
      HomeInRange(item, numValidBits, lgSize);
      ghost var home: nat := probe;
      ghost var e: nat :| e < size && slots[e] == EMPTY;
      while slots[probe] != item && slots[probe] != EMPTY
        invariant probe < size
        invariant forall j: nat | j < size && InArc(home, j, probe) :: slots[j] != EMPTY && slots[j] != item
        decreases if probe <= e then e - probe else e + size - probe
      {
        probe := Next(probe, size);
      }
      r := probe;
    }

    // the caller keeps count and shrinks the table
    method MustInsert(item: nat) returns (ghost r: nat)
      requires 2 <= lgSize <= numValidBits <= 32 && |slots| == Pow2(lgSize)
      requires item < Pow2(numValidBits) && item != EMPTY && EMPTY in slots && item !in slots
      modifies this`slots
      ensures r < |old(slots)| && old(slots)[r] == EMPTY && ProbedTo(old(slots), Divisor(), item, r)
      ensures slots == old(slots)[r := item]
    {
      var index := Lookup(item);
      slots := slots[index := item];
      r := index;
    }

    /** must_insert into a table that is in order, with room to spare. */
    method InsertNew(item: nat)
      requires Stores() && |items| < |slots|
      requires item < Pow2(numValidBits) && item != EMPTY && item !in items
      modifies this`slots, this`items
      ensures Stores() && items == old(items) + {item} && |slots| == |old(slots)|
    {
      HasEmpty(slots, items);
      ghost var before := slots;
      assert item !in slots;
      var r := MustInsert(item);
      InsertKeeps(before, Divisor(), items, item, r);
      items := items + {item};
    }

    /** The size that inserting the item asks for. */
    ghost function SizeWith(item: nat): nat
      reads this
    {
      if item !in items && UPSIZE_DENOM * (numItems + 1) > UPSIZE_NUMER * |slots| then lgSize + 1 else lgSize
    }

    /** The size that taking the item out leads to: half of it, if it is then less than a quarter full
        and has more than four slots. */
    ghost function SizeWithout(item: nat): nat
      reads this
    {
      if item in items && 4 * (numItems - 1) < |slots| && lgSize > 2 then lgSize - 1 else lgSize
    }

    /** Inserting grows the table beyond the largest size exactly if the item is new and that size
        would then be more than 3/4 full. */
    lemma OutgrowsUniverse(item: nat)
      requires Valid()
      ensures SizeWith(item) > LargestLgSize(numValidBits) <==> item !in items && !Roomy(|items| + 1, numValidBits)
    {
      if lgSize < LargestLgSize(numValidBits) {
        Pow2Mono(lgSize + 1, LargestLgSize(numValidBits));
        Pow2Mono(2, lgSize);
      }
      hide IsTable, LargestLgSize;
    }

    /** Adds an item, and tells whether it was not there before. The size that this leads to must be one
        that lookups can work with. */
    method MaybeInsert(item: nat) returns (novel: bool)
      requires Valid() && item < Pow2(numValidBits) && item != EMPTY
      requires SizeWith(item) <= LargestLgSize(numValidBits)
      modifies this
      ensures Valid() && numValidBits == old(numValidBits) && lgSize == old(SizeWith(item))
      ensures novel == (item !in old(items))
      ensures items == old(items) + {item}
    {
      hide Holds, Distinct, Reachable, ProbedTo, Home;
      HasEmpty(slots, items);
      var index := Lookup(item);
      ProbeFinds(slots, Divisor(), items, item, index);
      if slots[index] == item {
        return false;
      }
      InsertKeeps(slots, Divisor(), items, item, index);
      slots := slots[index := item];
      items := items + {item};
      numItems := numItems + 1;
      if UPSIZE_DENOM * numItems > UPSIZE_NUMER * |slots| {
        Rebuild(lgSize + 1);
      }
      return true;
    }

    /** Takes an item out, and tells whether it was there. */
    method MaybeDelete(item: nat) returns (present: bool)
      requires Valid() && item < Pow2(numValidBits) && item != EMPTY
      modifies this
      ensures Valid() && numValidBits == old(numValidBits) && lgSize == old(SizeWithout(item))
      ensures present == (item in old(items))
      ensures items == old(items) - {item}
    {
      hide Holds, Distinct, Reachable, ProbedTo, Home;
      HasEmpty(slots, items);
      var index := Lookup(item);
      ProbeFinds(slots, Divisor(), items, item, index);
      if slots[index] == EMPTY {
        return false;
      }
      ghost var e: nat :| e < |slots| && slots[e] == EMPTY;
      StartReinserting(slots, Divisor(), items, e, index);
      slots := slots[index := EMPTY];
      items := items - {item};
      numItems := numItems - 1;

      ReinsertCluster(index, e);
      if DOWNSIZE_DENOM * numItems < DOWNSIZE_NUMER * |slots| && lgSize > 2 {
        Rebuild(lgSize - 1);
      }
      return true;
    }

    method ReinsertOne(probe: nat, fetched: nat, ghost e: nat, ghost lo: int)
      requires 2 <= lgSize <= numValidBits <= 32 && |slots| == Pow2(lgSize)
      requires forall x | x in items :: x < Pow2(numValidBits)
      requires probe < |slots| && fetched == slots[probe] && fetched != EMPTY
      requires Reinserting(slots, Divisor(), items, e, lo, Rel(e, |slots|, probe))
      modifies this`slots
      ensures |slots| == |old(slots)|
      ensures Rel(e, |slots|, Next(probe, |slots|)) == Rel(e, |slots|, probe) + 1
      ensures Reinserting(slots, Divisor(), items, e, lo, Rel(e, |slots|, probe) + 1)
    {
      hide Holds, Distinct, Behind, Reinserting, ProbedTo, Home, IsTable, Pow2, Rel, Next;
      ghost var before := slots;
      TakeOut(slots, Divisor(), items, e, lo, probe);
      slots := slots[probe := EMPTY];
      var r := MustInsert(fetched);
      StepReinserting(before, Divisor(), items, e, lo, probe, r);
    }

    /** Takes the items of the cluster behind a freed slot to where probes for them now end. */
    method ReinsertCluster(index: nat, ghost e: nat)
      requires 2 <= lgSize <= numValidBits <= 32 && |slots| == Pow2(lgSize) && index < |slots|
      requires forall x | x in items :: x < Pow2(numValidBits)
      requires var lo := Rel(e, |slots|, index); Reinserting(slots, Divisor(), items, e, lo, lo + 1)
      modifies this`slots
      ensures |slots| == |old(slots)| && IsTable(slots, Divisor(), items)
    {
      ghost var lo := Rel(e, |slots|, index);
      var probe := Next(index, |slots|);
      assert Rel(e, |slots|, probe) == lo + 1;
      hide Holds, Distinct, Behind, Reinserting, ProbedTo, Home, IsTable, Pow2;
      var fetched := slots[probe];
      while fetched != EMPTY
        invariant |slots| == |old(slots)| && probe < |slots| && fetched == slots[probe]
        invariant Reinserting(slots, Divisor(), items, e, lo, Rel(e, |slots|, probe))
        decreases |slots| - Rel(e, |slots|, probe)
      {
        hide Rel;
        ReinsertOne(probe, fetched, e, lo);
        probe := Next(probe, |slots|);
        fetched := slots[probe];
      }
      EndReinserting(slots, Divisor(), items, e, lo, probe);
    }

    method Rebuild(newLgSize: nat)
      requires Stores() && 2 <= newLgSize <= LargestLgSize(numValidBits) && numItems == |items| < Pow2(newLgSize)
      modifies this
      ensures Stores() && lgSize == newLgSize
      ensures UPSIZE_DENOM * numItems <= UPSIZE_NUMER * |slots| ==> Valid()
      ensures items == old(items) && numItems == old(numItems) && numValidBits == old(numValidBits)
    {
      hide Holds, Distinct, Reachable, ProbedTo, Home, Pow2;
      var oldSlots := slots;
      ghost var all := items;
      slots := seq(Pow2(newLgSize), _ => EMPTY);
      lgSize := newLgSize;
      items := {};
      AllEmpty(Pow2(newLgSize), Divisor());
      HoldsNothing(oldSlots);
      for i := 0 to |oldSlots|
        invariant lgSize == newLgSize && numValidBits == old(numValidBits) && numItems == old(numItems)
        invariant items <= all && Holds(oldSlots[..i], items)
        invariant Stores()
      {
        HoldsNext(oldSlots, i, items, all);
        if oldSlots[i] != EMPTY {
          InsertNew(oldSlots[i]);
        }
      }
      HoldsUnique(oldSlots, items, all);
    }

    /** The table of the given pairs, at its final size from the start. */
    static method MakeFromPairs(pairs: seq<nat>, lgK: nat) returns (table: U32Table)
      requires lgK <= 26 && Distinct(pairs)
      requires forall x | x in pairs :: x < Pow2(6 + lgK) && x != EMPTY
      requires Roomy(|pairs|, 6 + lgK)
      ensures fresh(table) && table.Valid() && table.numValidBits == 6 + lgK
      ensures table.items == Elements(pairs) && JustFits(|pairs|, table.lgSize, 2)
    {
      hide Holds, Distinct, Reachable, ProbedTo, Home, Pow2;
      var lgNumSlots := 2;
      while UPSIZE_DENOM * |pairs| > UPSIZE_NUMER * Pow2(lgNumSlots)
        invariant 2 <= lgNumSlots <= LargestLgSize(6 + lgK)
        invariant lgNumSlots > 2 ==> UPSIZE_DENOM * |pairs| > UPSIZE_NUMER * Pow2(lgNumSlots - 1)
        decreases LargestLgSize(6 + lgK) - lgNumSlots
      {
        lgNumSlots := lgNumSlots + 1;
      }
      table := new U32Table(lgNumSlots, 6 + lgK);
      ghost var all := Elements(pairs);
      PairsHeld(pairs);
      for i := 0 to |pairs|
        invariant fresh(table) && table.lgSize == lgNumSlots && table.numValidBits == 6 + lgK
        invariant table.Stores()
        invariant table.items <= all && Holds(pairs[..i], table.items) && |table.items| == i
      {
        HoldsNext(pairs, i, table.items, all);
        table.InsertNew(pairs[i]);
      }
      HoldsUnique(pairs, table.items, all);
      table.numItems := |pairs|;
    }
  }

  lemma PairsHeld(pairs: seq<nat>)
    requires Distinct(pairs) && EMPTY !in pairs
    ensures Holds(pairs, Elements(pairs)) && Holds(pairs[..0], {}) && |Elements(pairs)| == |pairs|
  {
    DistinctCount(pairs);
  }

  lemma HomeInRange(item: nat, numValidBits: nat, lgSize: nat)
    requires lgSize <= numValidBits && item < Pow2(numValidBits)
    ensures 0 <= Home(item, Pow2(numValidBits - lgSize)) < Pow2(lgSize)
  {
    Pow2Add(lgSize, numValidBits - lgSize);
    hide Pow2;
    QuotientFits(item, Pow2(numValidBits - lgSize), Pow2(lgSize));
  }

  lemma QuotientFits(x: nat, d: nat, q: nat)
    requires d > 0 && x < q * d
    ensures 0 <= x / d < q
  {
    var p := x / d;
    assert x == d * p + x % d;
    if p >= q {
      MulMono(d, q, p);
      assert false;
    }
  }
}
