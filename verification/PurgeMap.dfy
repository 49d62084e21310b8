/** The map of the frequent-items sketch: linear probing where every cell knows its drift, deletion
    by shifting the rest of the cluster back, and a purge that subtracts the median value in place
    (fi/include/reverse_purge_hash_map.hpp and reverse_purge_hash_map_impl.hpp). */
module PurgeMaps {
  import opened Words
  import opened Probing
  import opened Strides
  import opened Sorting

  const DRIFT_LIMIT := 1024
  const MAX_SAMPLE_SIZE := 1024

  /** A cell of keys_, values_ and states_: Free is state 0, otherwise the state is the distance
      from the key's home plus 1. */
  datatype Slot<K> = Free | Held(key: K, value: nat, state: nat)

  // ----- what an array of slots stores -----

  /** fmix64(H()(key)) & mask, for a table of n slots. */
  function Home<K>(hash: K -> nat, key: K, n: nat): (home: nat)
    requires n > 0
    ensures home < n
  {
    hash(key) % n
  }

  lemma HomeIsMasked<K>(hash: K -> nat, key: K, lg: nat)
    ensures Home(hash, key, Pow2(lg)) == Bitwise(And, hash(key), Pow2(lg) - 1)
  {
    AndMask(hash(key), lg);
    hide Bitwise, Pow2;
  }

  function Distance(home: nat, i: nat, n: nat): int {
    if home <= i then i - home else i + n - home
  }

  /** The state of slot i is its distance plus 1, and there is no hole on the way to it. */
  ghost predicate Placed<K>(s: seq<Slot<K>>, hash: K -> nat, i: nat)
    requires i < |s| && s[i].Held?
  {
    var home := Home(hash, s[i].key, |s|);
    && s[i].state == Distance(home, i, |s|) + 1
    && forall j: nat | j < |s| && InArc(home, j, i) :: s[j].Held?
  }

  ghost predicate HasKey<K>(s: seq<Slot<K>>, key: K) {
    exists i: nat :: i < |s| && s[i].Held? && s[i].key == key
  }

  ghost predicate Stores<K>(s: seq<Slot<K>>, contents: map<K, nat>) {
    && (forall i: nat | i < |s| && s[i].Held? :: s[i].key in contents && contents[s[i].key] == s[i].value)
    && (forall key | key in contents :: HasKey(s, key))
    && (forall i: nat, j: nat | i < j < |s| && s[i].Held? && s[j].Held? :: s[i].key != s[j].key)
  }

  ghost predicate IsMap<K>(s: seq<Slot<K>>, hash: K -> nat, contents: map<K, nat>) {
    && Stores(s, contents)
    && forall i: nat | i < |s| && s[i].Held? :: Placed(s, hash, i)
  }

  /** What a probe for the key that stops at r has seen. */
  ghost predicate ProbedTo<K>(s: seq<Slot<K>>, hash: K -> nat, key: K, r: nat) {
    && r < |s|
    && (s[r].Held? ==> s[r].key == key)
    && forall j: nat | j < |s| && InArc(Home(hash, key, |s|), j, r) :: s[j].Held? && s[j].key != key
  }

  lemma ProbeFinds<K>(s: seq<Slot<K>>, hash: K -> nat, contents: map<K, nat>, key: K, r: nat)
    requires IsMap(s, hash, contents) && ProbedTo(s, hash, key, r)
    ensures key in contents <==> s[r].Held?
    ensures s[r].Held? ==> s[r].key == key && contents[key] == s[r].value
  {
    if key in contents {
      assert HasKey(s, key);
      var i: nat :| i < |s| && s[i].Held? && s[i].key == key;
      assert Placed(s, hash, i);
      var home := Home(hash, key, |s|);
      hide Home;
      assert i == r || InArc(home, i, r) || InArc(home, r, i);
    }
  }

  lemma AdjustKeeps<K>(s: seq<Slot<K>>, hash: K -> nat, contents: map<K, nat>, r: nat, value: nat)
    requires IsMap(s, hash, contents) && r < |s| && s[r].Held?
    ensures IsMap(s[r := s[r].(value := value)], hash, contents[s[r].key := value])
  {
    var s' := s[r := s[r].(value := value)];
    forall key | key in contents ensures HasKey(s', key) {
      assert HasKey(s, key);
      var i: nat :| i < |s| && s[i].Held? && s[i].key == key;
      assert s'[i].key == key;
    }
    forall i: nat | i < |s'| && s'[i].Held? ensures Placed(s', hash, i) {
      assert Placed(s, hash, i);
    }
  }

  lemma InsertKeeps<K>(s: seq<Slot<K>>, hash: K -> nat, contents: map<K, nat>, key: K, value: nat, r: nat)
    requires IsMap(s, hash, contents) && ProbedTo(s, hash, key, r) && s[r].Free? && key !in contents
    ensures IsMap(s[r := Held(key, value, Distance(Home(hash, key, |s|), r, |s|) + 1)], hash, contents[key := value])
  {
    var s' := s[r := Held(key, value, Distance(Home(hash, key, |s|), r, |s|) + 1)];
    hide Home;
    assert s'[r].key == key;
    forall k | k in contents ensures HasKey(s', k) {
      assert HasKey(s, k);
      var i: nat :| i < |s| && s[i].Held? && s[i].key == k;
      assert s'[i].key == k;
    }
    forall i: nat | i < |s'| && s'[i].Held? ensures Placed(s', hash, i) {
      if i != r {
        assert Placed(s, hash, i);
      }
    }
  }

  // ----- counting -----

  /** The keys of some slots. */
  ghost function KeysAt<K>(s: seq<Slot<K>>, at: set<nat>): set<K> {
    set i | i in at && i < |s| && s[i].Held? :: s[i].key
  }

  lemma {:induction false} KeysAtSize<K>(s: seq<Slot<K>>, contents: map<K, nat>, at: set<nat>)
    requires Stores(s, contents) && forall i | i in at :: i < |s| && s[i].Held?
    ensures |KeysAt(s, at)| == |at| <= |contents|
    decreases |at|
  {
    if at == {} {
      assert KeysAt(s, at) == {};
    } else {
      var i :| i in at;
      KeysAtSize(s, contents, at - {i});
      assert KeysAt(s, at) == KeysAt(s, at - {i}) + {s[i].key};
    }
    assert KeysAt(s, at) <= contents.Keys;
    SubsetSize(KeysAt(s, at), contents.Keys);
  }

  /** A table with fewer entries than slots has a free one. */
  lemma HasFree<K>(s: seq<Slot<K>>, contents: map<K, nat>)
    requires Stores(s, contents) && |contents| < |s|
    ensures exists e: nat :: e < |s| && s[e].Free?
  {
    if forall i: nat | i < |s| :: s[i].Held? {
      KeysAtSize(s, contents, Below(|s|));
    }
  }

  ghost function Arc(n: nat, h: nat, i: nat): set<nat> {
    set j | j in Below(n) && InArc(h, j, i)
  }

  lemma {:induction false} ArcSize(n: nat, h: nat, i: nat)
    requires h < n && i < n
    ensures 0 <= Distance(h, i, n) == |Arc(n, h, i)|
    decreases Distance(h, i, n)
  {
    if h == i {
      assert Arc(n, h, i) == {};
    } else {
      var p: nat := if i == 0 then n - 1 else i - 1;
      ArcSize(n, h, p);
      forall j: nat | j < n ensures InArc(h, j, i) <==> InArc(h, j, p) || j == p {
      }
      assert p !in Arc(n, h, p);
      assert Arc(n, h, i) == Arc(n, h, p) + {p};
    }
  }

  /** The slots on a path that has no hole are no more than the entries. */
  lemma PathLength<K>(s: seq<Slot<K>>, contents: map<K, nat>, h: nat, i: nat)
    requires Stores(s, contents) && h < |s| && i < |s|
    requires forall j: nat | j < |s| && InArc(h, j, i) :: s[j].Held?
    ensures 0 <= Distance(h, i, |s|) <= |contents|
  {
    ArcSize(|s|, h, i);
    KeysAtSize(s, contents, Arc(|s|, h, i));
  }

  /** No path without a hole is as long as the drift limit: what keeps its exception from being thrown. */
  ghost predicate ShortRuns<K>(s: seq<Slot<K>>) {
    forall h: nat, i: nat | h < |s| && i < |s| && IsRun(s, h, i) :: Distance(h, i, |s|) < DRIFT_LIMIT - 1
  }

  ghost predicate IsRun<K>(s: seq<Slot<K>>, h: nat, i: nat) {
    forall j: nat | j < |s| && InArc(h, j, i) :: s[j].Held?
  }

  ghost predicate Sparser<K>(s: seq<Slot<K>>, s0: seq<Slot<K>>) {
    |s| == |s0| && forall i: nat | i < |s| && s[i].Held? :: s0[i].Held?
  }

  /** Few entries cannot form a long run. */
  lemma FewEntries<K>(s: seq<Slot<K>>, contents: map<K, nat>)
    requires Stores(s, contents) && |contents| < DRIFT_LIMIT - 1
    ensures ShortRuns(s)
  {
    forall h: nat, i: nat | h < |s| && i < |s| && IsRun(s, h, i) ensures Distance(h, i, |s|) < DRIFT_LIMIT - 1 {
      PathLength(s, contents, h, i);
    }
  }

  lemma SparserRuns<K>(s: seq<Slot<K>>, s0: seq<Slot<K>>)
    requires Sparser(s, s0) && ShortRuns(s0)
    ensures ShortRuns(s)
  {
    forall h: nat, i: nat | h < |s| && i < |s| && IsRun(s, h, i) ensures Distance(h, i, |s|) < DRIFT_LIMIT - 1 {
      assert IsRun(s0, h, i);
    }
  }

  // ----- deleting by shifting back -----

  /** Slot i while hole is being filled, seen from the free slot e: its path is full up to the hole,
      and the slots between hole and probe do not depend on the hole. */
  ghost predicate Linear<K>(s: seq<Slot<K>>, hash: K -> nat, e: nat, hole: nat, probe: nat, i: nat)
    requires i < |s| && s[i].Held?
  {
    var n := |s|;
    var home := Rel(e, n, Home(hash, s[i].key, n));
    && home <= Rel(e, n, i)
    && s[i].state == Rel(e, n, i) - home + 1
    && (forall j: nat | j < n && home <= Rel(e, n, j) < Rel(e, n, i) && j != hole :: s[j].Held?)
    && (Rel(e, n, hole) < Rel(e, n, i) < Rel(e, n, probe) ==> Rel(e, n, hole) < home)
  }

  ghost predicate Shifting<K>(s: seq<Slot<K>>, hash: K -> nat, contents: map<K, nat>, e: nat, hole: nat, probe: nat) {
    && e < |s| && hole < |s| && probe < |s|
    && s[e].Free? && s[hole].Free?
    && Rel(e, |s|, hole) < Rel(e, |s|, probe)
    && Stores(s, contents)
    && (forall i: nat | i < |s| && s[i].Held? :: Linear(s, hash, e, hole, probe, i))
    && (forall j: nat | j < |s| && Rel(e, |s|, hole) < Rel(e, |s|, j) < Rel(e, |s|, probe) :: s[j].Held?)
  }

  lemma RemoveKeeps<K>(s: seq<Slot<K>>, contents: map<K, nat>, d: nat)
    requires Stores(s, contents) && d < |s| && s[d].Held?
    ensures s[d].key in contents && Stores(s[d := Free], contents - {s[d].key})
  {
    var s' := s[d := Free];
    forall key | key in contents && key != s[d].key ensures HasKey(s', key) {
      assert HasKey(s, key);
      var i: nat :| i < |s| && s[i].Held? && s[i].key == key;
      assert s'[i].key == key;
    }
  }

  /** The entry at probe fills the hole and leaves one behind. */
  function Moved<K>(s: seq<Slot<K>>, hole: nat, probe: nat, drift: nat): (s': seq<Slot<K>>)
    requires hole < |s| && probe < |s| && s[probe].Held? && drift <= s[probe].state
    ensures |s'| == |s|
  {
    s[hole := s[probe].(state := s[probe].state - drift)][probe := Free]
  }

  lemma MoveKeeps<K>(s: seq<Slot<K>>, contents: map<K, nat>, probe: nat, hole: nat, drift: nat)
    requires Stores(s, contents) && probe < |s| && hole < |s| && s[probe].Held? && s[hole].Free? && drift <= s[probe].state
    ensures Stores(Moved(s, hole, probe, drift), contents)
  {
    var s' := Moved(s, hole, probe, drift);
    forall key | key in contents ensures HasKey(s', key) {
      assert HasKey(s, key);
      var i: nat :| i < |s| && s[i].Held? && s[i].key == key;
      assert s'[if i == probe then hole else i].key == key;
    }
  }

  lemma NextRel(e: nat, n: nat, p: nat)
    requires e < n && p < n && p != e
    ensures Next(p, n) < n && Rel(e, n, Next(p, n)) == Rel(e, n, p) + 1
  {
  }

  lemma LinearFirst<K>(s: seq<Slot<K>>, hash: K -> nat, e: nat, d: nat, i: nat)
    requires e < |s| && s[e].Free? && d < |s| && i < |s| && i != d && s[i].Held? && Placed(s, hash, i) && d != e
    ensures Linear(s[d := Free], hash, e, d, Next(d, |s|), i)
  {
    var n := |s|;
    NextRel(e, n, d);
    var home := Home(hash, s[i].key, n);
    hide Home;
    assert !InArc(home, e, i);
    ArcIsInterval(e, n, home, i);
  }

  lemma StartShifting<K>(s: seq<Slot<K>>, hash: K -> nat, contents: map<K, nat>, e: nat, d: nat)
    requires IsMap(s, hash, contents) && e < |s| && s[e].Free? && d < |s| && s[d].Held?
    ensures s[d].key in contents && Shifting(s[d := Free], hash, contents - {s[d].key}, e, d, Next(d, |s|))
  {
    hide Stores, Linear, Placed, Rel, Next;
    NextRel(e, |s|, d);
    RemoveKeeps(s, contents, d);
    forall i: nat | i < |s| && i != d && s[i].Held? ensures Linear(s[d := Free], hash, e, d, Next(d, |s|), i) {
      LinearFirst(s, hash, e, d, i);
    }
  }

  lemma ShiftPlaces<K>(s: seq<Slot<K>>, hash: K -> nat, contents: map<K, nat>, e: nat, hole: nat, probe: nat)
    requires Shifting(s, hash, contents, e, hole, probe)
    ensures e < |s| && hole < |s| && probe < |s| && s[e].Free? && s[hole].Free? && hole != probe && e != hole
    ensures Rel(e, |s|, hole) < Rel(e, |s|, probe)
  {
  }

  /** How far the probe is from the hole. */
  lemma Drift<K>(s: seq<Slot<K>>, hash: K -> nat, contents: map<K, nat>, e: nat, hole: nat, probe: nat)
    requires Shifting(s, hash, contents, e, hole, probe) && ShortRuns(s)
    ensures Rel(e, |s|, probe) - Rel(e, |s|, hole) < DRIFT_LIMIT
  {
    var n := |s|;
    var first := Next(hole, n);
    NextRel(e, n, hole);
    IntervalIsArc(e, n, first, probe);
    hide Linear, Stores;
    assert IsRun(s, first, probe);
  }

  /** The entry at probe may not move before its home, so it stays. */
  lemma PassProbe<K>(s: seq<Slot<K>>, hash: K -> nat, contents: map<K, nat>, e: nat, hole: nat, probe: nat)
    requires Shifting(s, hash, contents, e, hole, probe) && s[probe].Held?
    requires s[probe].state <= Rel(e, |s|, probe) - Rel(e, |s|, hole)
    ensures Shifting(s, hash, contents, e, hole, Next(probe, |s|))
  {
    hide Stores, Linear, Rel, Next;
    NextRel(e, |s|, probe);
    forall i: nat | i < |s| && s[i].Held? ensures Linear(s, hash, e, hole, Next(probe, |s|), i) {
      LinearPassed(s, hash, e, hole, probe, i);
    }
    SameRel(e, |s|);
  }

  lemma SameRel(e: nat, n: nat)
    requires e < n
    ensures forall i: nat, j: nat | i < n && j < n && Rel(e, n, i) == Rel(e, n, j) :: i == j
  {
  }

  lemma LinearPassed<K>(s: seq<Slot<K>>, hash: K -> nat, e: nat, hole: nat, probe: nat, i: nat)
    requires e < |s| && hole < |s| && probe < |s| && probe != e && s[probe].Held? && Linear(s, hash, e, hole, probe, probe)
    requires s[probe].state <= Rel(e, |s|, probe) - Rel(e, |s|, hole)
    requires i < |s| && s[i].Held? && Linear(s, hash, e, hole, probe, i)
    ensures Linear(s, hash, e, hole, Next(probe, |s|), i)
  {
    NextRel(e, |s|, probe);
    SameRel(e, |s|);
    hide Rel, Next, Home;
  }

  lemma LinearMoved<K>(s: seq<Slot<K>>, hash: K -> nat, e: nat, hole: nat, probe: nat, drift: nat, i: nat)
    requires e < |s| && hole < |s| && probe < |s| && s[e].Free? && s[hole].Free? && s[probe].Held?
    requires 0 < drift == Rel(e, |s|, probe) - Rel(e, |s|, hole) < s[probe].state
    requires i < |s| && s[i].Held? && Linear(s, hash, e, hole, probe, i) && Linear(s, hash, e, hole, probe, probe)
    ensures var s' := Moved(s, hole, probe, drift);
            var i' := if i == probe then hole else i;
            s'[i'].Held? && Linear(s', hash, e, probe, Next(probe, |s|), i')
  {
    NextRel(e, |s|, probe);
    hide Home;
  }

  lemma MoveProbe<K>(s: seq<Slot<K>>, hash: K -> nat, contents: map<K, nat>, e: nat, hole: nat, probe: nat, drift: nat)
    requires Shifting(s, hash, contents, e, hole, probe) && s[probe].Held?
    requires drift == Rel(e, |s|, probe) - Rel(e, |s|, hole) < s[probe].state
    ensures Shifting(Moved(s, hole, probe, drift), hash, contents, e, probe, Next(probe, |s|))
  {
    hide Linear, Stores, Rel, Next, Moved;
    ShiftPlaces(s, hash, contents, e, hole, probe);
    NextRel(e, |s|, probe);
    MoveKeeps(s, contents, probe, hole, drift);
    var s' := Moved(s, hole, probe, drift);
    MovedPlaces(s, e, hole, probe, drift);
    forall i: nat | i < |s| && s'[i].Held? ensures Linear(s', hash, e, probe, Next(probe, |s|), i) {
      var i' := if i == hole then probe else i;
      assert Linear(s, hash, e, hole, probe, i');
      LinearMoved(s, hash, e, hole, probe, drift, i');
    }
  }

  lemma MovedPlaces<K>(s: seq<Slot<K>>, e: nat, hole: nat, probe: nat, drift: nat)
    requires e < |s| && hole < |s| && probe < |s| && s[e].Free? && s[probe].Held? && drift <= s[probe].state && e != hole
    ensures var s' := Moved(s, hole, probe, drift);
            && |s'| == |s| && s'[e].Free? && s'[probe].Free?
            && forall i: nat | i < |s| && s'[i].Held? :: i != probe && (i != hole ==> s[i].Held?)
  {
  }

  function Shifted<K>(s: seq<Slot<K>>, hole: nat, probe: nat, drift: nat): (s': seq<Slot<K>>)
    requires hole < |s| && probe < |s| && s[probe].Held?
    ensures |s'| == |s|
  {
    if s[probe].state > drift then Moved(s, hole, probe, drift) else s
  }

  function ShiftedHole<K>(s: seq<Slot<K>>, hole: nat, probe: nat, drift: nat): nat
    requires probe < |s| && s[probe].Held?
  {
    if s[probe].state > drift then probe else hole
  }

  lemma ShiftProbe<K>(s: seq<Slot<K>>, hash: K -> nat, contents: map<K, nat>, e: nat, hole: nat, probe: nat, drift: nat)
    requires Shifting(s, hash, contents, e, hole, probe) && s[probe].Held?
    requires drift == Rel(e, |s|, probe) - Rel(e, |s|, hole)
    ensures Shifting(Shifted(s, hole, probe, drift), hash, contents, e, ShiftedHole(s, hole, probe, drift), Next(probe, |s|))
    ensures probe != e && hole != probe && forall i: nat | i < |s| && i != hole && i != probe :: Shifted(s, hole, probe, drift)[i] == s[i]
  {
    hide Shifting, Rel, Next;
    ShiftPlaces(s, hash, contents, e, hole, probe);
    if s[probe].state > drift {
      MoveProbe(s, hash, contents, e, hole, probe, drift);
    } else {
      PassProbe(s, hash, contents, e, hole, probe);
    }
  }

  lemma PlacedAgain<K>(s: seq<Slot<K>>, hash: K -> nat, e: nat, hole: nat, probe: nat, i: nat)
    requires e < |s| && s[e].Free? && hole < |s| && probe < |s| && s[probe].Free? && Rel(e, |s|, hole) < Rel(e, |s|, probe)
    requires i < |s| && s[i].Held? && Linear(s, hash, e, hole, probe, i)
    ensures Placed(s, hash, i)
  {
    var n := |s|;
    var home := Home(hash, s[i].key, n);
    hide Home;
    IntervalIsArc(e, n, home, i);
    assert Rel(e, n, i) < Rel(e, n, probe) || Rel(e, n, probe) < Rel(e, n, home) by {
      assert probe != hole;
      if Rel(e, n, probe) <= Rel(e, n, i) {
        assert probe != i;
      }
    }
  }

  /** A free probe ends the cluster: no path crosses the hole any more. */
  lemma EndShifting<K>(s: seq<Slot<K>>, hash: K -> nat, contents: map<K, nat>, e: nat, hole: nat, probe: nat)
    requires Shifting(s, hash, contents, e, hole, probe) && s[probe].Free?
    ensures IsMap(s, hash, contents)
  {
    hide Stores, Linear, Placed;
    forall i: nat | i < |s| && s[i].Held? ensures Placed(s, hash, i) {
      PlacedAgain(s, hash, e, hole, probe, i);
    }
  }

  // ----- subtracting from all values -----

  /** Every value reduced by an amount; only positive ones are kept. */
  ghost function Reduced<K>(contents: map<K, nat>, amount: nat): map<K, nat> {
    map key | key in contents && contents[key] > amount :: contents[key] - amount
  }

  /** Some keys still have to be dealt with. */
  ghost function Reducing<K>(contents: map<K, nat>, amount: nat, todo: set<K>): map<K, nat> {
    map key | key in contents && (key in todo || contents[key] > amount) ::
      if key in todo then contents[key] else contents[key] - amount
  }

  /** The keys in the slots that a scan down to distance x behind e has not reached. */
  ghost function Todo<K>(s: seq<Slot<K>>, e: nat, x: int): set<K> {
    set i: nat | i < |s| && s[i].Held? && Rel(e, |s|, i) < x :: s[i].key
  }

  ghost predicate Scanning<K>(s: seq<Slot<K>>, s0: seq<Slot<K>>, hash: K -> nat, contents: map<K, nat>, contents0: map<K, nat>,
                              amount: nat, e: nat, x: int)
  {
    && |s| == |s0| && e < |s| && s[e].Free?
    && IsMap(s, hash, contents) && Stores(s0, contents0)
    && Sparser(s, s0)
    && (forall i: nat | i < |s| && Rel(e, |s|, i) < x :: s[i] == s0[i])
    && contents == Reducing(contents0, amount, Todo(s0, e, x))
  }

  lemma StartScanning<K>(s: seq<Slot<K>>, hash: K -> nat, contents: map<K, nat>, amount: nat, e: nat)
    requires IsMap(s, hash, contents) && e < |s| && s[e].Free?
    ensures Scanning(s, s, hash, contents, contents, amount, e, |s| - 1)
  {
    hide Placed;
    forall key | key in contents ensures key in Todo(s, e, |s| - 1) {
      assert HasKey(s, key);
    }
  }

  lemma NextTodo<K>(s: seq<Slot<K>>, contents: map<K, nat>, e: nat, x: int, p: nat)
    requires Stores(s, contents) && e < |s| && p < |s| && Rel(e, |s|, p) == x - 1
    ensures s[p].Free? ==> Todo(s, e, x) == Todo(s, e, x - 1)
    ensures s[p].Held? ==> s[p].key !in Todo(s, e, x - 1) && Todo(s, e, x) == Todo(s, e, x - 1) + {s[p].key}
  {
    SameRel(e, |s|);
    hide Rel;
    forall i: nat | i < |s| ensures Rel(e, |s|, i) < x <==> Rel(e, |s|, i) < x - 1 || i == p {
    }
  }

  lemma ScanFree<K>(s: seq<Slot<K>>, s0: seq<Slot<K>>, hash: K -> nat, contents: map<K, nat>, contents0: map<K, nat>,
                    amount: nat, e: nat, x: int, p: nat)
    requires Scanning(s, s0, hash, contents, contents0, amount, e, x) && p < |s| && Rel(e, |s|, p) == x - 1 && s[p].Free?
    ensures Scanning(s, s0, hash, contents, contents0, amount, e, x - 1)
  {
    hide IsMap, Stores;
    NextTodo(s0, contents0, e, x, p);
  }

  lemma ScannedEntry<K>(s: seq<Slot<K>>, s0: seq<Slot<K>>, hash: K -> nat, contents: map<K, nat>, contents0: map<K, nat>,
                        amount: nat, e: nat, x: int, p: nat)
    requires Scanning(s, s0, hash, contents, contents0, amount, e, x) && p < |s| && Rel(e, |s|, p) == x - 1 && s[p].Held?
    ensures s[p].key in contents && contents[s[p].key] == s[p].value
    ensures s[p].value <= amount ==> contents - {s[p].key} == Reducing(contents0, amount, Todo(s0, e, x - 1))
    ensures s[p].value > amount ==> contents[s[p].key := s[p].value - amount] == Reducing(contents0, amount, Todo(s0, e, x - 1))
  {
    hide Placed, Todo, Rel, HasKey, Reducing;
    NextTodo(s0, contents0, e, x, p);
    ReduceOne(contents0, amount, Todo(s0, e, x - 1), s[p].key);
  }

  lemma ReduceOne<K>(contents: map<K, nat>, amount: nat, todo: set<K>, key: K)
    requires key in contents && key !in todo
    ensures var reducing := Reducing(contents, amount, todo + {key});
            && key in reducing && reducing[key] == contents[key]
            && (contents[key] <= amount ==> reducing - {key} == Reducing(contents, amount, todo))
            && (contents[key] > amount ==> reducing[key := contents[key] - amount] == Reducing(contents, amount, todo))
  {
  }

  lemma ScanNext<K>(s: seq<Slot<K>>, s': seq<Slot<K>>, s0: seq<Slot<K>>, hash: K -> nat, contents: map<K, nat>,
                    contents': map<K, nat>, contents0: map<K, nat>, amount: nat, e: nat, x: int)
    requires Scanning(s, s0, hash, contents, contents0, amount, e, x)
    requires |s'| == |s| && s'[e].Free? && IsMap(s', hash, contents') && Sparser(s', s)
    requires forall i: nat | i < |s| && Rel(e, |s|, i) < x - 1 :: s'[i] == s[i]
    requires contents' == Reducing(contents0, amount, Todo(s0, e, x - 1))
    ensures Scanning(s', s0, hash, contents', contents0, amount, e, x - 1)
  {
    hide IsMap, Stores, Reducing, Todo, Rel;
  }

  lemma ScanPlaces<K>(s: seq<Slot<K>>, s0: seq<Slot<K>>, hash: K -> nat, contents: map<K, nat>, contents0: map<K, nat>,
                      amount: nat, e: nat, x: int)
    requires Scanning(s, s0, hash, contents, contents0, amount, e, x)
    ensures e < |s| && s[e].Free? && IsMap(s, hash, contents)
    ensures ShortRuns(s0) ==> ShortRuns(s)
  {
    hide ShortRuns, IsMap, Reducing, Stores;
    if ShortRuns(s0) {
      SparserRuns(s, s0);
    }
  }

  lemma ScanReduce<K>(s: seq<Slot<K>>, s0: seq<Slot<K>>, hash: K -> nat, contents: map<K, nat>, contents0: map<K, nat>,
                      amount: nat, e: nat, x: int, p: nat, key: K, value: nat)
    requires Scanning(s, s0, hash, contents, contents0, amount, e, x) && p < |s| && Rel(e, |s|, p) == x - 1 && s[p].Held?
    requires key == s[p].key && s[p].value == amount + value && value > 0
    ensures Scanning(s[p := s[p].(value := value)], s0, hash, contents[key := value], contents0, amount, e, x - 1)
    ensures |contents[key := value]| == |contents|
  {
    hide Scanning, Rel, Reducing, IsMap, Todo, Sparser, ShortRuns;
    ScanPlaces(s, s0, hash, contents, contents0, amount, e, x);
    ScannedEntry(s, s0, hash, contents, contents0, amount, e, x, p);
    NotTheFree(s, e, p);
    AsSparse(s, p, value);
    AdjustKeeps(s, hash, contents, p, value);
    SameKeys(contents, key, value);
    ScanNext(s, s[p := s[p].(value := value)], s0, hash, contents, contents[key := value], contents0, amount, e, x);
  }

  lemma AsSparse<K>(s: seq<Slot<K>>, p: nat, value: nat)
    requires p < |s| && s[p].Held?
    ensures Sparser(s[p := s[p].(value := value)], s)
  {
  }

  lemma SameKeys<K>(contents: map<K, nat>, key: K, value: nat)
    requires key in contents
    ensures |contents[key := value]| == |contents|
  {
    assert contents[key := value].Keys == contents.Keys;
  }

  lemma Behind(e: nat, n: nat, p: nat)
    requires e < n && p < n
    ensures Rel(e, n, p) == if p > e then p - e - 1 else p + n - e - 1
  {
  }

  lemma NotTheFree<K>(s: seq<Slot<K>>, e: nat, p: nat)
    requires e < |s| && p < |s| && s[e].Free? && s[p].Held?
    ensures e != p && forall i: nat | i < |s| && Rel(e, |s|, i) < Rel(e, |s|, p) :: i != p
  {
  }

  lemma EndScanning<K>(s: seq<Slot<K>>, s0: seq<Slot<K>>, hash: K -> nat, contents: map<K, nat>, contents0: map<K, nat>,
                       amount: nat, e: nat)
    requires Scanning(s, s0, hash, contents, contents0, amount, e, 0)
    ensures IsMap(s, hash, contents) && contents == Reduced(contents0, amount)
  {
    hide IsMap, Stores;
    assert Todo(s0, e, 0) == {};
  }

  // ----- sums and the median -----

  ghost function AnyKey<K>(contents: map<K, nat>): (key: K)
    requires contents.Keys != {}
    ensures key in contents
  {
    var key :| key in contents;
    key
  }

  lemma OneFewer<K>(contents: map<K, nat>, key: K)
    requires key in contents
    ensures |contents - {key}| + 1 == |contents|
  {
    assert (contents - {key}).Keys == contents.Keys - {key};
  }

  ghost function Sum<K>(contents: map<K, nat>): nat
    decreases |contents|
  {
    if contents.Keys == {} then 0
    else
      var key := AnyKey(contents);
      OneFewer(contents, key);
      contents[key] + Sum(contents - {key})
  }

  lemma {:induction false} SumWithout<K>(contents: map<K, nat>, key: K)
    requires key in contents
    ensures Sum(contents) == contents[key] + Sum(contents - {key})
    decreases |contents|
  {
    var k := AnyKey(contents);
    OneFewer(contents, k);
    OneFewer(contents, key);
    if k != key {
      SumWithout(contents - {k}, key);
      SumWithout(contents - {key}, k);
      assert contents - {k} - {key} == contents - {key} - {k};
    }
  }

  lemma SumUpdate<K>(contents: map<K, nat>, key: K, value: nat)
    ensures Sum(contents[key := value]) == Sum(contents) + value - (if key in contents then contents[key] else 0)
  {
    var contents' := contents[key := value];
    SumWithout(contents', key);
    if key in contents {
      SumWithout(contents, key);
      assert contents' - {key} == contents - {key};
    } else {
      assert contents' - {key} == contents;
    }
  }

  ghost function AtMost<K>(contents: map<K, nat>, m: nat): set<K> {
    set key | key in contents && contents[key] <= m
  }

  ghost function AtLeast<K>(contents: map<K, nat>, m: nat): set<K> {
    set key | key in contents && contents[key] >= m
  }

  lemma WithoutKey<K>(contents: map<K, nat>, key: K, amount: nat)
    requires key in contents
    ensures contents[key] > amount ==>
              && key in Reduced(contents, amount) && Reduced(contents, amount)[key] == contents[key] - amount
              && Reduced(contents, amount) - {key} == Reduced(contents - {key}, amount)
    ensures contents[key] <= amount ==> Reduced(contents, amount) == Reduced(contents - {key}, amount)
    ensures |AtLeast(contents, amount)| == |AtLeast(contents - {key}, amount)| + (if contents[key] >= amount then 1 else 0)
  {
    var rest := contents - {key};
    if contents[key] >= amount {
      assert AtLeast(contents, amount) == AtLeast(rest, amount) + {key};
    } else {
      assert AtLeast(contents, amount) == AtLeast(rest, amount);
    }
  }

  /** Every value of at least the amount gives it all up. */
  lemma {:induction false} ReducedSum<K>(contents: map<K, nat>, amount: nat)
    ensures Sum(Reduced(contents, amount)) + amount * |AtLeast(contents, amount)| <= Sum(contents)
    decreases |contents|
  {
    if contents.Keys == {} {
      assert Reduced(contents, amount) == contents;
      assert AtLeast(contents, amount) == {};
    } else {
      var key := AnyKey(contents);
      OneFewer(contents, key);
      ReducedSum(contents - {key}, amount);
      ReducedSumStep(contents, key, amount);
    }
  }

  lemma ReducedSumStep<K>(contents: map<K, nat>, key: K, amount: nat)
    requires key in contents
    requires var rest := contents - {key};
             Sum(Reduced(rest, amount)) + amount * |AtLeast(rest, amount)| <= Sum(rest)
    ensures Sum(Reduced(contents, amount)) + amount * |AtLeast(contents, amount)| <= Sum(contents)
  {
    hide Reduced, AtLeast, Sum;
    SumWithout(contents, key);
    WithoutKey(contents, key, amount);
    if contents[key] > amount {
      SumWithout(Reduced(contents, amount), key);
    }
    var n := |AtLeast(contents - {key}, amount)|;
    OneMore(n, amount);
  }

  lemma ReducedSize<K>(contents: map<K, nat>, amount: nat)
    ensures |Reduced(contents, amount)| + |AtMost(contents, amount)| == |contents|
  {
    assert Reduced(contents, amount).Keys + AtMost(contents, amount) == contents.Keys;
    assert Reduced(contents, amount).Keys !! AtMost(contents, amount);
  }

  /** The values of the first slots in order: what a purge samples. */
  function Values<K>(s: seq<Slot<K>>): seq<nat> {
    if s == [] then []
    else
      var last := s[|s| - 1];
      Values(s[..|s| - 1]) + if last.Held? then [last.value] else []
  }

  predicate OnSide(below: bool, m: nat, v: nat) {
    if below then v <= m else v >= m
  }

  ghost function CountSide(t: seq<nat>, below: bool, m: nat): nat {
    if t == [] then 0
    else CountSide(t[..|t| - 1], below, m) + if OnSide(below, m, t[|t| - 1]) then 1 else 0
  }

  lemma {:induction false} CountCat(t: seq<nat>, u: seq<nat>, below: bool, m: nat)
    ensures CountSide(t + u, below, m) == CountSide(t, below, m) + CountSide(u, below, m)
  {
    if u == [] {
      assert t + u == t;
    } else {
      assert (t + u)[..|t + u| - 1] == t + u[..|u| - 1];
      CountCat(t, u[..|u| - 1], below, m);
    }
  }

  lemma CountOut(t: seq<nat>, j: nat, below: bool, m: nat)
    requires j < |t|
    ensures CountSide(t, below, m) == CountSide(t[..j] + t[j + 1..], below, m) + if OnSide(below, m, t[j]) then 1 else 0
    ensures multiset(t[..j] + t[j + 1..]) == multiset(t) - multiset{t[j]}
  {
    assert t == t[..j] + [t[j]] + t[j + 1..];
    CountCat(t[..j], [t[j]], below, m);
    CountCat(t[..j] + [t[j]], t[j + 1..], below, m);
    CountCat(t[..j], t[j + 1..], below, m);
    assert CountSide([t[j]], below, m) == if OnSide(below, m, t[j]) then 1 else 0 by {
      assert [t[j]][..0] == [];
    }
  }

  lemma {:induction false} CountPermuted(t: seq<nat>, u: seq<nat>, below: bool, m: nat)
    requires multiset(t) == multiset(u)
    ensures CountSide(t, below, m) == CountSide(u, below, m)
  {
    if t == [] {
      assert |multiset(u)| == 0;
    } else {
      var x := t[|t| - 1];
      assert x in multiset(t) && x in u by {
        assert x in multiset(u);
      }
      var j :| 0 <= j < |u| && u[j] == x;
      hide CountSide, OnSide;
      CountOut(t, |t| - 1, below, m);
      CountOut(u, j, below, m);
      assert t[..|t| - 1] + t[|t|..] == t[..|t| - 1];
      CountPermuted(t[..|t| - 1], u[..j] + u[j + 1..], below, m);
    }
  }

  lemma {:induction false} CountRange(t: seq<nat>, below: bool, m: nat, lo: nat, hi: nat)
    requires lo <= hi <= |t| && forall j | lo <= j < hi :: OnSide(below, m, t[j])
    ensures CountSide(t, below, m) >= hi - lo
  {
    if hi < |t| {
      CountRange(t[..|t| - 1], below, m, lo, hi);
    } else if lo < hi {
      CountRange(t[..|t| - 1], below, m, lo, hi - 1);
    }
  }

  ghost function KeysOnSide<K>(s: seq<Slot<K>>, below: bool, m: nat): set<K> {
    set i: nat | i < |s| && s[i].Held? && OnSide(below, m, s[i].value) :: s[i].key
  }

  ghost predicate KeysDiffer<K>(s: seq<Slot<K>>) {
    forall i: nat, j: nat | i < j < |s| && s[i].Held? && s[j].Held? :: s[i].key != s[j].key
  }

  lemma NextOnSide<K>(s: seq<Slot<K>>, below: bool, m: nat)
    requires KeysDiffer(s) && s != []
    ensures var front, last := s[..|s| - 1], s[|s| - 1];
            |KeysOnSide(s, below, m)| == |KeysOnSide(front, below, m)| + if last.Held? && OnSide(below, m, last.value) then 1 else 0
  {
    var front, last := s[..|s| - 1], s[|s| - 1];
    NextOnSideIs(s, below, m);
    if last.Held? && OnSide(below, m, last.value) {
      assert last.key !in KeysOnSide(front, below, m);
    }
    hide KeysOnSide, OnSide;
  }

  lemma NextOnSideIs<K>(s: seq<Slot<K>>, below: bool, m: nat)
    requires s != []
    ensures var front, last := s[..|s| - 1], s[|s| - 1];
            KeysOnSide(s, below, m)
            == KeysOnSide(front, below, m) + if last.Held? && OnSide(below, m, last.value) then {last.key} else {}
  {
    var front, last := s[..|s| - 1], s[|s| - 1];
    hide OnSide;
    forall key | key in KeysOnSide(front, below, m) ensures key in KeysOnSide(s, below, m) {
      var i: nat :| i < |front| && front[i].Held? && OnSide(below, m, front[i].value) && front[i].key == key;
      assert s[i] == front[i];
    }
    forall key | key in KeysOnSide(s, below, m)
      ensures key in KeysOnSide(front, below, m) || (last.Held? && OnSide(below, m, last.value) && key == last.key)
    {
      var i: nat :| i < |s| && s[i].Held? && OnSide(below, m, s[i].value) && s[i].key == key;
      assert i < |front| ==> front[i] == s[i];
    }
  }

  lemma NextValue<K>(s: seq<Slot<K>>, below: bool, m: nat)
    requires s != []
    ensures var front, last := s[..|s| - 1], s[|s| - 1];
            CountSide(Values(s), below, m)
            == CountSide(Values(front), below, m) + if last.Held? && OnSide(below, m, last.value) then 1 else 0
  {
    var front, last := s[..|s| - 1], s[|s| - 1];
    if last.Held? {
      CountCat(Values(front), [last.value], below, m);
      assert [last.value][..0] == [];
    } else {
      assert Values(s) == Values(front);
    }
  }

  lemma {:induction false} KeysCounted<K>(s: seq<Slot<K>>, below: bool, m: nat)
    requires KeysDiffer(s)
    ensures |KeysOnSide(s, below, m)| == CountSide(Values(s), below, m)
  {
    if s == [] {
      assert KeysOnSide(s, below, m) == {};
    } else {
      KeysCounted(s[..|s| - 1], below, m);
      NextOnSide(s, below, m);
      NextValue(s, below, m);
      hide KeysOnSide, Values, CountSide;
    }
  }

  lemma {:induction false} CountEverything(t: seq<nat>)
    ensures CountSide(t, false, 0) == |t|
  {
    if t != [] {
      CountEverything(t[..|t| - 1]);
    }
  }

  lemma ValuesCount<K>(s: seq<Slot<K>>, contents: map<K, nat>)
    requires Stores(s, contents)
    ensures |Values(s)| == |contents|
  {
    KeysCounted(s, false, 0);
    CountEverything(Values(s));
    forall key | key in contents ensures key in KeysOnSide(s, false, 0) {
      assert HasKey(s, key);
    }
    assert KeysOnSide(s, false, 0) == contents.Keys;
  }

  function SampleCount(n: nat): nat {
    if n < MAX_SAMPLE_SIZE then n else MAX_SAMPLE_SIZE
  }

  /** What std::nth_element promises of the element in the middle of the sample. */
  ghost predicate IsMiddle(sample: seq<nat>, m: nat) {
    && m in sample
    && CountSide(sample, true, m) >= |sample| / 2 + 1
    && CountSide(sample, false, m) >= |sample| - |sample| / 2
  }

  lemma SortedMiddle(t: seq<nat>, sample: seq<nat>)
    requires t != [] && multiset(t) == multiset(sample) && SortedRange(t, 0, |t|)
    ensures |t| == |sample| && IsMiddle(sample, t[|t| / 2])
  {
    var m := t[|t| / 2];
    assert |multiset(t)| == |t| && |multiset(sample)| == |sample|;
    assert m in multiset(t) && m in multiset(sample);
    CountRange(t, true, m, 0, |t| / 2 + 1);
    CountRange(t, false, m, |t| / 2, |t|);
    CountPermuted(t, sample, true, m);
    CountPermuted(t, sample, false, m);
  }

  lemma {:induction false} ValuesPrefix<K>(s: seq<Slot<K>>, i: nat)
    requires i <= |s|
    ensures |Values(s[..i])| <= |Values(s)| && Values(s[..i]) == Values(s)[..|Values(s[..i])|]
  {
    if i < |s| {
      var front := s[..|s| - 1];
      ValuesPrefix(front, i);
      assert front[..i] == s[..i];
    } else {
      assert s[..i] == s;
    }
  }

  lemma CountPrefix(t: seq<nat>, n: nat, below: bool, m: nat)
    requires n <= |t|
    ensures CountSide(t[..n], below, m) <= CountSide(t, below, m)
  {
    assert t == t[..n] + t[n..];
    CountCat(t[..n], t[n..], below, m);
  }

  /** Half of at least this many values, rounded up, are on either side of m. */
  ghost predicate IsMedian<K>(contents: map<K, nat>, m: nat, samples: nat) {
    && m in contents.Values
    && |AtMost(contents, m)| >= samples / 2 + 1
    && |AtLeast(contents, m)| >= samples - samples / 2
  }

  lemma SideKeys<K>(s: seq<Slot<K>>, contents: map<K, nat>, below: bool, m: nat)
    requires Stores(s, contents)
    ensures |KeysOnSide(s, below, m)| <= if below then |AtMost(contents, m)| else |AtLeast(contents, m)|
  {
    hide HasKey;
    if below {
      SubsetSize(KeysOnSide(s, below, m), AtMost(contents, m));
    } else {
      SubsetSize(KeysOnSide(s, below, m), AtLeast(contents, m));
    }
  }

  lemma {:induction false} ValueHeld<K>(s: seq<Slot<K>>, v: nat) returns (i: nat)
    requires v in Values(s)
    ensures i < |s| && s[i].Held? && s[i].value == v
  {
    var last := s[|s| - 1];
    if last.Held? && last.value == v {
      i := |s| - 1;
    } else {
      i := ValueHeld(s[..|s| - 1], v);
    }
  }

  /** The middle of the first values is a median of the map. */
  lemma SampleMedian<K>(s: seq<Slot<K>>, contents: map<K, nat>, sample: seq<nat>, m: nat)
    requires Stores(s, contents) && |sample| <= |Values(s)| && sample == Values(s)[..|sample|] && IsMiddle(sample, m)
    ensures IsMedian(contents, m, |sample|)
  {
    CountPrefix(Values(s), |sample|, true, m);
    CountPrefix(Values(s), |sample|, false, m);
    KeysCounted(s, true, m);
    KeysCounted(s, false, m);
    SideKeys(s, contents, true, m);
    SideKeys(s, contents, false, m);
    var j := ValueHeld(s, m);
    assert s[j].key in contents && contents[s[j].key] == m;
  }

  // ----- the map -----

  const LG_MIN_MAP_SIZE := 3

  /** The most entries that a map of 2^lg slots may hold: 3/4 of them, rounded down. */
  function Capacity(lg: nat): nat {
    (3 * Pow2(lg)) / 4
  }

  lemma CapacityFits(lg: nat)
    requires lg >= LG_MIN_MAP_SIZE
    ensures 6 <= Capacity(lg) && Capacity(lg) + 1 < Pow2(lg) && Capacity(lg) + 1 <= Capacity(lg + 1)
    ensures lg <= 10 ==> Capacity(lg) <= 768
  {
    Pow2Mono(3, lg);
    assert Pow2(3) == 8;
    if lg <= 10 {
      Pow2Mono(lg, 10);
      assert Pow2(10) == 1024;
    }
  }

  /** The number of values that a purge of a full map of this size samples. */
  function SampleSize(lg: nat): nat {
    SampleCount(Capacity(lg) + 1)
  }

  function Get<K>(contents: map<K, nat>, key: K): nat {
    if key in contents then contents[key] else 0
  }

  function Adjust<K>(contents: map<K, nat>, key: K, value: nat): map<K, nat> {
    contents[key := Get(contents, key) + value]
  }

  /** What becomes of the contents when an entry has been added: growing keeps everything, purging a
      full map of the largest size takes a median away from all values. */
  ghost predicate Settled<K>(all: map<K, nat>, lgCur0: nat, lgMax: nat, contents: map<K, nat>, offset: nat, lgCur: nat) {
    if |all| <= Capacity(lgCur0) then
      contents == all && offset == 0 && lgCur == lgCur0
    else if lgCur0 < lgMax then
      contents == all && offset == 0 && lgCur == lgCur0 + 1
    else
      && |all| == Capacity(lgMax) + 1 && lgCur == lgCur0
      && IsMedian(all, offset, SampleSize(lgMax)) && contents == Reduced(all, offset)
  }

  /** What becomes of slots s that have just got an entry in a home that was free. */
  ghost predicate AtHome<K>(s: seq<Slot<K>>, lgCur: nat, lgMax: nat, numActive: nat,
                            ok: bool, inPlace: bool, slots: seq<Slot<K>>, offset: nat)
  {
    && (numActive < Capacity(lgCur) ==> ok && inPlace && slots == s)
    && (lgCur == lgMax && ShortRuns(s) ==> ok)
    && (ok && lgCur == lgMax && numActive == Capacity(lgMax) ==>
          SampleSize(lgMax) <= |Values(s)| && IsMiddle(Values(s)[..SampleSize(lgMax)], offset))
  }

  lemma AdjustSize<K>(contents: map<K, nat>, key: K, value: nat)
    ensures |Adjust(contents, key, value)| == |contents| + if key in contents then 0 else 1
  {
    var all := Adjust(contents, key, value);
    if key in contents {
      assert all.Keys == contents.Keys;
    } else {
      assert all.Keys == contents.Keys + {key};
    }
  }

  class ReversePurgeHashMap<K(==)> {
    const hash: K -> nat
    var lgCur: nat
    var lgMax: nat
    var numActive: nat
    var slots: array<Slot<K>>
    ghost var contents: map<K, nat>

    ghost predicate Stored()
      reads this, slots
    {
      && LG_MIN_MAP_SIZE <= lgCur <= lgMax
      && slots.Length == Pow2(lgCur)
      && IsMap(slots[..], hash, contents)
      && numActive == |contents| <= Capacity(lgCur) + 1
    }

    ghost predicate Valid()
      reads this, slots
    {
      Stored() && numActive <= Capacity(lgCur)
    }

    constructor (lgCur: nat, lgMax: nat, hash: K -> nat)
      requires LG_MIN_MAP_SIZE <= lgCur <= lgMax
      ensures Valid() && contents == map[] && fresh(slots)
      ensures this.lgCur == lgCur && this.lgMax == lgMax && this.hash == hash
      ensures slots.Length == Pow2(lgCur) && forall i | 0 <= i < slots.Length :: slots[i].Free?
    {
      this.lgCur, this.lgMax, this.hash := lgCur, lgMax, hash;
      numActive := 0;
      slots := new Slot<K>[Pow2(lgCur)](_ => Free);
      contents := map[];
    }

    method GetValue(key: K) returns (value: nat)
      requires Valid()
      ensures value == Get(contents, key)
    {
      hide IsMap, Walked, Home;
      var e := FreeSlot();
      WalkStarts(slots[..], hash, key);
      var probe: nat := Home(hash, key, slots.Length);
      while slots[probe].Held?
        invariant probe < slots.Length && Walked(slots[..], hash, key, probe)
        decreases slots.Length - Distance(Home(hash, key, slots.Length), probe, slots.Length)
      {
        hide IsMap, Walked, Home;
        if slots[probe].key == key {
          WalkEnds(slots[..], hash, contents, key, probe);
          return slots[probe].value;
        }
        WalkOn(slots[..], hash, key, probe, e);
        probe := Next(probe, slots.Length);
      }
      WalkEnds(slots[..], hash, contents, key, probe);
      return 0;
    }

    lemma FreeSlot() returns (e: nat)
      requires Stored()
      ensures e < slots.Length && slots[e].Free?
      ensures numActive == |contents| < slots.Length && slots.Length == Pow2(lgCur)
    {
      CapacityFits(lgCur);
      hide Placed, Capacity, Pow2;
      HasFree(slots[..], contents);
      e :| e < |slots[..]| && slots[..][e].Free?;
    }

    /** Adds the value to the key's, or adds the key; not if either is too far from home. */
    method InternalAdjustOrInsert(key: K, value: nat) returns (ok: bool, index: nat)
      requires Valid()
      modifies slots, this`numActive, this`contents
      ensures ShortRuns(old(slots[..])) ==> ok
      ensures index < slots.Length && Walked(old(slots[..]), hash, key, index)
      ensures ok ==> old(slots[index]).Free? || old(slots[index]).key == key
      ensures var far := Distance(Home(hash, key, slots.Length), index, slots.Length);
              if ok then far < 1023 else far == 1023
      ensures ok ==> Stored() && contents == Adjust(old(contents), key, value)
      ensures var home := Home(hash, key, slots.Length);
              old(slots[home]).Free? ==>
                ok && numActive == old(numActive) + 1 && slots[..] == old(slots[..])[home := Held(key, value, 1)]
    {
      hide IsMap, Walked, Home, Capacity, Pow2;
      var e := FreeSlot();
      ghost var n, s := slots.Length, slots[..];
      index := Home(hash, key, slots.Length);
      var drift := 1;
      WalkStarts(s, hash, key);
      AdjustSize(contents, key, value);
      while slots[index].Held?
        invariant slots == old(slots) && slots[..] == s && contents == old(contents) && numActive == old(numActive)
        invariant index < n && Walked(s, hash, key, index)
        invariant drift == Distance(Home(hash, key, n), index, n) + 1 < DRIFT_LIMIT
        invariant drift == 1 ==> index == Home(hash, key, n)
        invariant drift > 1 ==> s[Home(hash, key, n)].Held?
        decreases n - drift
      {
        hide IsMap, Walked, Home, Capacity, Pow2;
        if slots[index].key == key {
          // the key is there
          WalkEnds(s, hash, contents, key, index);
          AdjustKeeps(s, hash, contents, index, slots[index].value + value);
          slots[index] := slots[index].(value := slots[index].value + value);
          contents := Adjust(contents, key, value);
          assert slots[..] == s[index := s[index].(value := s[index].value + value)];
          return true, index;
        }
        WalkOn(s, hash, key, index, e);
        index := Next(index, slots.Length);
        drift := drift + 1;
        if ShortRuns(s) {
          WalkLength(s, hash, key, index);
        }
        if drift >= DRIFT_LIMIT {
          return false, index; // the exception "drift limit reached"
        }
      }
      // the key is new, and this slot is free
      assert numActive <= Capacity(lgCur); // no exception is thrown
      WalkEnds(s, hash, contents, key, index);
      InsertKeeps(s, hash, contents, key, value, index);
      slots[index] := Held(key, value, drift);
      contents := Adjust(contents, key, value);
      numActive := numActive + 1;
      assert slots[..] == s[index := Held(key, value, drift)];
      return true, index;
    }

    /** Frees a slot and moves later entries of the cluster back; e is a free slot elsewhere, and furthest
        how far the probe has been ahead of the hole. */
    method HashDelete(deleteIndex: nat, ghost e: nat) returns (ok: bool, ghost furthest: nat)
      requires IsMap(slots[..], hash, contents) && slots.Length == Pow2(lgCur)
      requires deleteIndex < slots.Length && slots[deleteIndex].Held? && e < slots.Length && slots[e].Free?
      modifies slots, this`contents
      ensures ShortRuns(old(slots[..])) ==> ok
      ensures ok <==> furthest < 1024
      ensures ok ==> IsMap(slots[..], hash, contents) && contents == old(contents) - {old(slots[deleteIndex].key)}
      ensures ok ==> slots[e].Free? && Sparser(slots[..], old(slots[..]))
      ensures ok ==> forall i: nat | i < slots.Length && Rel(e, slots.Length, i) < Rel(e, slots.Length, deleteIndex) ::
                       slots[i] == old(slots[i])
    {
      hide IsMap, Shifting, Pow2;
      ghost var n, s0 := slots.Length, slots[..];
      StartShifting(s0, hash, contents, e, deleteIndex);
      slots[deleteIndex] := Free;
      assert slots[..] == s0[deleteIndex := Free];
      OneFewer(contents, s0[deleteIndex].key);
      contents := contents - {s0[deleteIndex].key};
      var hole: nat, drift := deleteIndex, 1;
      furthest := 1;
      NextRel(e, n, hole);
      var probe: nat := Next(deleteIndex, slots.Length);
      while slots[probe].Held?
        invariant contents == old(contents) - {s0[deleteIndex].key}
        invariant Shifting(slots[..], hash, contents, e, hole, probe)
        invariant hole < n && probe < n && slots[e].Free? && s0[hole].Held? && Sparser(slots[..], s0)
        invariant 0 < drift == Rel(e, n, probe) - Rel(e, n, hole) && Rel(e, n, deleteIndex) <= Rel(e, n, hole)
        invariant drift <= furthest < DRIFT_LIMIT
        invariant forall i: nat | i < n && Rel(e, n, i) < Rel(e, n, deleteIndex) :: slots[i] == s0[i]
        decreases n - Rel(e, n, probe)
      {
        hide IsMap, Shifting, Shifted, Pow2;
        ghost var s := slots[..];
        ShiftPlaces(s, hash, contents, e, hole, probe);
        ShiftProbe(s, hash, contents, e, hole, probe, drift);
        hole, drift := ShiftStep(hole, probe, drift);
        NextRel(e, n, probe);
        probe := Next(probe, slots.Length);
        drift := drift + 1;
        furthest := if Rel(e, n, probe) - Rel(e, n, hole) > furthest then Rel(e, n, probe) - Rel(e, n, hole) else furthest;
        if ShortRuns(s0) {
          SparserRuns(slots[..], s0);
          Drift(slots[..], hash, contents, e, hole, probe);
        }
        if drift >= DRIFT_LIMIT {
          return false, furthest; // the exception "drift >= DRIFT_LIMIT"
        }
      }
      EndShifting(slots[..], hash, contents, e, hole, probe);
      return true, furthest;
    }

    /** Moves the entry at probe into the hole if that is not before its home. */
    method ShiftStep(hole: nat, probe: nat, drift: nat) returns (hole': nat, drift': nat)
      requires hole < slots.Length && probe < slots.Length && slots[probe].Held?
      modifies slots
      ensures slots[..] == Shifted(old(slots[..]), hole, probe, drift)
      ensures hole' == ShiftedHole(old(slots[..]), hole, probe, drift)
      ensures drift' == if old(slots[probe].state) > drift then 0 else drift
    {
      hole', drift' := hole, drift;
      ghost var s := slots[..];
      if slots[probe].state > drift {
        slots[hole] := slots[probe].(state := slots[probe].state - drift);
        slots[probe] := Free;
        assert slots[..] == Moved(s, hole, probe, drift);
        hole', drift' := probe, 0;
      }
    }

    /** The scan has dealt with all entries from distance x behind e on. */
    ghost predicate Scans(s0: seq<Slot<K>>, contents0: map<K, nat>, amount: nat, e: nat, x: int)
      reads this, slots
    {
      && slots.Length == Pow2(lgCur)
      && numActive == |contents| <= |contents0|
      && Scanning(slots[..], s0, hash, contents, contents0, amount, e, x)
    }

    method DeleteAt(probe: nat, amount: nat, ghost e: nat, ghost x: int, ghost s0: seq<Slot<K>>, ghost contents0: map<K, nat>)
      returns (ok: bool)
      requires Scans(s0, contents0, amount, e, x) && probe < slots.Length && Rel(e, slots.Length, probe) == x - 1
      requires slots[probe].Held? && slots[probe].value <= amount
      modifies slots, this`numActive, this`contents
      ensures ShortRuns(s0) ==> ok
      ensures ok ==> Scans(s0, contents0, amount, e, x - 1)
    {
      hide Scanning, Rel, Reducing, IsMap, Todo, Pow2;
      ReadyToDelete(probe, amount, e, x, s0, contents0);
      ghost var s, all := slots[..], contents;
      ghost var furthest;
      ok, furthest := HashDelete(probe, e); // entries behind it may move into its slot
      if ok {
        numActive := numActive - 1;
        ScanNext(s, slots[..], s0, hash, all, contents, contents0, amount, e, x);
      }
    }

    lemma ReadyToDelete(probe: nat, amount: nat, e: nat, x: int, s0: seq<Slot<K>>, contents0: map<K, nat>)
      requires Scans(s0, contents0, amount, e, x) && probe < slots.Length && Rel(e, slots.Length, probe) == x - 1
      requires slots[probe].Held? && slots[probe].value <= amount
      ensures e < slots.Length && slots[e].Free? && IsMap(slots[..], hash, contents)
      ensures ShortRuns(s0) ==> ShortRuns(slots[..])
      ensures |contents - {slots[probe].key}| + 1 == |contents|
      ensures contents - {slots[probe].key} == Reducing(contents0, amount, Todo(s0, e, x - 1))
    {
      var s := slots[..];
      ScanPlaces(s, s0, hash, contents, contents0, amount, e, x);
      ScannedEntry(s, s0, hash, contents, contents0, amount, e, x, probe);
      hide Scanning, Rel, Reducing, IsMap, Todo, Pow2;
      OneFewer(contents, s[probe].key);
    }

    method ReduceAt(probe: nat, amount: nat, ghost e: nat, ghost x: int, ghost s0: seq<Slot<K>>, ghost contents0: map<K, nat>)
      requires Scans(s0, contents0, amount, e, x) && probe < slots.Length && Rel(e, slots.Length, probe) == x - 1
      requires slots[probe].Held? && slots[probe].value > amount
      modifies slots, this`contents
      ensures Scans(s0, contents0, amount, e, x - 1)
    {
      hide Scanning, Rel, Pow2;
      ghost var s, key, value: nat := slots[..], slots[probe].key, slots[probe].value - amount;
      ScanReduce(s, s0, hash, contents, contents0, amount, e, x, probe, key, value);
      contents := contents[key := value];
      slots[probe] := slots[probe].(value := slots[probe].value - amount);
      assert slots[..] == s[probe := s[probe].(value := value)];
    }

    /** Takes the amount from the value at probe, if any, or deletes the entry. */
    method SubtractAt(probe: nat, amount: nat, ghost e: nat, ghost x: int, ghost s0: seq<Slot<K>>, ghost contents0: map<K, nat>)
      returns (ok: bool)
      requires Scans(s0, contents0, amount, e, x) && probe < slots.Length && Rel(e, slots.Length, probe) == x - 1
      modifies slots, this`numActive, this`contents
      ensures ShortRuns(s0) ==> ok
      ensures ok ==> Scans(s0, contents0, amount, e, x - 1)
    {
      ok := true;
      if slots[probe].Held? {
        hide Scans, Rel, Pow2;
        if slots[probe].value <= amount {
          ok := DeleteAt(probe, amount, e, x, s0, contents0);
        } else {
          ReduceAt(probe, amount, e, x, s0, contents0);
        }
      } else {
        hide Scanning, Rel, Pow2;
        ScanFree(slots[..], s0, hash, contents, contents0, amount, e, x, probe);
      }
    }

    /** Every value goes down by the amount; each entry that survives is met exactly once, although
        deletions move entries while the scan runs back through the clusters. */
    method SubtractAndKeepPositiveOnly(amount: nat) returns (ok: bool)
      requires Stored()
      modifies slots, this`numActive, this`contents
      ensures ShortRuns(old(slots[..])) ==> ok
      ensures ok ==> slots.Length == Pow2(lgCur) && IsMap(slots[..], hash, contents) && numActive == |contents|
      ensures ok ==> contents == Reduced(old(contents), amount)
    {
      hide IsMap, Pow2, Scanning, Reduced, Capacity;
      ghost var e := FreeSlot();
      // the last free slot ends a cluster
      var firstProbe := slots.Length - 1;
      while slots[firstProbe].Held?
        invariant e <= firstProbe < slots.Length
        decreases firstProbe
      {
        firstProbe := firstProbe - 1;
      }
      ghost var s0, contents0 := slots[..], contents;
      StartScanning(s0, hash, contents0, amount, firstProbe);
      ok := SubtractBefore(amount, firstProbe, s0, contents0);
      if !ok {
        return;
      }
      ok := SubtractFrom(amount, firstProbe, s0, contents0);
      if ok {
        EndScanning(slots[..], s0, hash, contents, contents0, amount, firstProbe);
      }
    }

    /** Works towards the front. */
    method SubtractBefore(amount: nat, firstProbe: nat, ghost s0: seq<Slot<K>>, ghost contents0: map<K, nat>)
      returns (ok: bool)
      requires firstProbe < slots.Length && Scans(s0, contents0, amount, firstProbe, slots.Length - 1)
      modifies slots, this`numActive, this`contents
      ensures ShortRuns(s0) ==> ok
      ensures ok ==> Scans(s0, contents0, amount, firstProbe, slots.Length - firstProbe - 1)
    {
      hide Scans, Rel;
      ok := true;
      for probe := firstProbe downto 0
        invariant Scans(s0, contents0, amount, firstProbe, probe + slots.Length - firstProbe - 1)
      {
        hide Scans, Rel;
        Behind(firstProbe, slots.Length, probe);
        ok := SubtractAt(probe, amount, firstProbe, probe + slots.Length - firstProbe, s0, contents0);
        if !ok {
          return;
        }
      }
    }

    /** The entries behind the last free slot, from the end of the array downwards. */
    method SubtractFrom(amount: nat, firstProbe: nat, ghost s0: seq<Slot<K>>, ghost contents0: map<K, nat>)
      returns (ok: bool)
      requires firstProbe < slots.Length && Scans(s0, contents0, amount, firstProbe, slots.Length - firstProbe - 1)
      modifies slots, this`numActive, this`contents
      ensures ShortRuns(s0) ==> ok
      ensures ok ==> Scans(s0, contents0, amount, firstProbe, 0)
    {
      hide Scans, Rel;
      ok := true;
      for probe := slots.Length downto firstProbe
        invariant Scans(s0, contents0, amount, firstProbe, if probe > firstProbe then probe - firstProbe - 1 else 0)
      {
        hide Scans, Rel;
        if probe > firstProbe {
          Behind(firstProbe, slots.Length, probe);
          ok := SubtractAt(probe, amount, firstProbe, probe - firstProbe, s0, contents0);
          if !ok {
            return;
          }
        } else {
          StaysFree(s0, contents0, amount, firstProbe, 0);
          assert slots[probe].Free?;
        }
      }
    }

    lemma StaysFree(s0: seq<Slot<K>>, contents0: map<K, nat>, amount: nat, e: nat, x: int)
      requires Scans(s0, contents0, amount, e, x)
      ensures e < slots.Length && slots[e].Free?
    {
      ScanPlaces(slots[..], s0, hash, contents, contents0, amount, e, x);
    }

    /** Subtracts an approximate median: the exact one of the first values in the table. */
    method Purge() returns (ok: bool, median: nat)
      requires Stored() && numActive > 0
      modifies slots, this`numActive, this`contents
      ensures ShortRuns(old(slots[..])) ==> ok
      ensures ok ==> slots.Length == Pow2(lgCur) && IsMap(slots[..], hash, contents) && numActive == |contents|
      ensures IsMedian(old(contents), median, SampleCount(|old(contents)|))
      ensures ok ==> contents == Reduced(old(contents), median)
      ensures |Values(old(slots[..]))| == |old(contents)|
      ensures IsMiddle(Values(old(slots[..]))[..SampleCount(|old(contents)|)], median)
    {
      hide IsMap, IsMedian, IsMiddle, Pow2, Capacity, Reduced, Values, ShortRuns;
      var limit := if MAX_SAMPLE_SIZE < numActive then MAX_SAMPLE_SIZE else numActive;
      var samples := new nat[limit](_ => 0);
      Sample(samples);
      ghost var drawn := samples[..];
      IntrospectiveInsertionSort(samples, 0, samples.Length); // std::nth_element
      median := samples[samples.Length / 2];
      SortedMiddle(samples[..], drawn);
      SampleMedian(slots[..], contents, drawn, median);
      ok := SubtractAndKeepPositiveOnly(median);
    }

    /** The first values of the table, as many as there is room for. */
    method Sample(samples: array<nat>)
      requires Stored() && samples.Length <= numActive
      modifies samples
      ensures |Values(slots[..])| == |contents| && samples[..] == Values(slots[..])[..samples.Length]
      ensures Stores(slots[..], contents)
    {
      hide Values, Placed, Pow2, Capacity;
      ghost var s := slots[..];
      ValuesCount(s, contents);
      assert s[..|s|] == s;
      var numSamples, i := 0, 0;
      NoValues(s);
      while numSamples < samples.Length
        invariant numSamples <= samples.Length && i <= slots.Length && samples[..numSamples] == Values(s[..i])
        decreases slots.Length - i
      {
        hide Values, Placed, Pow2, Capacity;
        assert i < slots.Length;
        ghost var before := samples[..numSamples];
        NextValues(s, i);
        if slots[i].Held? {
          samples[numSamples] := slots[i].value;
          numSamples := numSamples + 1;
          assert samples[..numSamples] == before + [slots[i].value];
        }
        i := i + 1;
      }
      assert samples[..] == samples[..numSamples];
      ValuesPrefix(s, i);
    }

    /** The key's value goes up by the given one. The offset is what a purge has taken off all values. */
    method AdjustOrInsert(key: K, value: nat) returns (ok: bool, offset: nat)
      requires Valid()
      modifies this, slots
      ensures |old(contents)| + 2 < DRIFT_LIMIT ==> ok
      ensures ok ==> Valid() && lgMax == old(lgMax) && (slots == old(slots) || fresh(slots))
      ensures ok ==> Settled(Adjust(old(contents), key, value), old(lgCur), lgMax, contents, offset, lgCur)
      ensures var home := Home(hash, key, old(slots.Length)); old(slots[home]).Free? ==>
                AtHome(old(slots[..])[home := Held(key, value, 1)], old(lgCur), old(lgMax), old(numActive),
                       ok, slots == old(slots) && numActive == old(numActive) + 1, slots[..], offset)
      decreases lgMax - lgCur, 2
    {
      hide IsMap, IsMedian, IsMiddle, Pow2, Reduced, Adjust, Capacity, Values, ShortRuns, Home;
      var numActiveBefore := numActive;
      AdjustSize(contents, key, value);
      if |contents| + 2 < DRIFT_LIMIT {
        ShortMap(slots[..], hash, contents);
      }
      var index;
      ok, index := InternalAdjustOrInsert(key, value);
      offset := 0;
      if ok && numActive > numActiveBefore {
        if |contents| + 1 < DRIFT_LIMIT {
          ShortMap(slots[..], hash, contents);
        }
        ok, offset := ResizeOrPurgeIfNeeded();
      }
    }

    method ResizeOrPurgeIfNeeded() returns (ok: bool, offset: nat)
      requires Stored()
      modifies this, slots
      ensures |old(contents)| + 1 < DRIFT_LIMIT ==> ok
      ensures ShortRuns(old(slots[..])) && old(lgCur) == old(lgMax) ==> ok
      ensures ok ==> Valid() && lgMax == old(lgMax) && (slots == old(slots) || fresh(slots))
      ensures ok ==> Settled(old(contents), old(lgCur), lgMax, contents, offset, lgCur)
      ensures old(numActive) <= Capacity(old(lgCur)) ==> ok && slots == old(slots) && slots[..] == old(slots[..])
      ensures ok && old(lgCur) == old(lgMax) && old(numActive) > Capacity(old(lgMax)) ==>
                var s := old(slots[..]);
                SampleSize(lgMax) <= |Values(s)| && IsMiddle(Values(s)[..SampleSize(lgMax)], offset)
      decreases lgMax - lgCur, 1
    {
      CapacityFits(lgCur);
      hide IsMap, IsMedian, IsMiddle, Pow2, Reduced, Capacity, Values, ShortRuns;
      ok, offset := true, 0;
      if numActive > Capacity(lgCur) {
        if lgCur < lgMax { // not yet
          ok := Resize(lgCur + 1);
        } else { // as large as it may become
          if |contents| + 1 < DRIFT_LIMIT {
            ShortMap(slots[..], hash, contents);
          }
          ok, offset := PurgeFull();
          assert ok ==> numActive <= Capacity(lgCur); // the exception "purge did not reduce ..." cannot be thrown
        }
      }
    }

    method PurgeFull() returns (ok: bool, offset: nat)
      requires Stored() && lgCur == lgMax && numActive == Capacity(lgMax) + 1
      modifies slots, this`numActive, this`contents
      ensures ShortRuns(old(slots[..])) ==> ok
      ensures ok ==> Valid() && Settled(old(contents), lgCur, lgMax, contents, offset, lgCur)
      ensures var s := old(slots[..]);
              SampleSize(lgMax) <= |Values(s)| && IsMiddle(Values(s)[..SampleSize(lgMax)], offset)
    {
      hide IsMap, IsMedian, IsMiddle, Pow2, Reduced, Capacity, Values, ShortRuns;
      ghost var all := contents;
      ok, offset := Purge();
      if ok {
        PurgeShrinks(all, offset, lgMax);
      }
    }

    method Reallocate(lgNewSize: nat)
      requires LG_MIN_MAP_SIZE <= lgNewSize <= lgMax
      modifies this
      ensures Valid() && fresh(slots) && contents == map[] && lgCur == lgNewSize && lgMax == old(lgMax)
    {
      EmptyMap<K>(hash, Pow2(lgNewSize));
      slots := new Slot<K>[Pow2(lgNewSize)](_ => Free);
      assert slots[..] == seq(Pow2(lgNewSize), _ => Free);
      numActive := 0;
      lgCur := lgNewSize;
      contents := map[];
    }

    method Resize(lgNewSize: nat) returns (ok: bool)
      requires Stored() && lgNewSize == lgCur + 1 <= lgMax && numActive <= Capacity(lgNewSize)
      modifies this
      ensures |old(contents)| + 1 < DRIFT_LIMIT ==> ok
      ensures ok ==> Valid() && lgMax == old(lgMax) && fresh(slots)
      ensures ok ==> contents == old(contents) && lgCur == lgNewSize
      decreases lgMax - lgCur, 0
    {
      hide IsMap, IsMedian, Pow2, Reduced, Adjust, Capacity, Stores;
      var oldSlots := slots;
      ghost var s, all := slots[..], contents;
      MapStores(s, hash, all);
      AllRestricted(s, all);
      Reallocate(lgNewSize);
      for i := 0 to oldSlots.Length
        invariant oldSlots[..] == s && slots != oldSlots
        invariant Valid() && lgMax == old(lgMax) && lgCur == lgNewSize && fresh(slots)
        invariant contents == Restricted(all, PrefixKeys(s, i))
      {
        hide IsMap, IsMedian, Pow2, Reduced, Adjust, Capacity, Stores, Restricted, ReversePurgeHashMap.Valid;
        NextRestricted(s, all, i);
        if oldSlots[i].Held? {
          ghost var offset;
          ok, offset := AdjustOrInsert(oldSlots[i].key, oldSlots[i].value);
          if !ok {
            return;
          }
        }
      }
      return true;
    }

    /** begin(): the first active slot, and the stride of the walk. */
    method Begin() returns (index: nat, stride: nat)
      requires Valid()
      ensures slots.Length >= 8 && stride == IteratorStride(slots.Length) && index <= slots.Length
      ensures forall i: nat | i < index :: slots[i].Free?
      ensures Iterating(slots[..], contents, if index < slots.Length then index else 0, stride, index, 0, 0, {})
    {
      FullEnough(slots[..], hash, contents, numActive);
      CapacityFits(lgCur);
      hide IsMap, Pow2, Capacity;
      stride := IteratorStride(slots.Length);
      index := 0;
      while index < slots.Length && slots[index].Free?
        invariant index <= slots.Length && forall i: nat | i < index :: slots[i].Free?
      {
        index := index + 1;
      }
      StartIterating(slots[..], contents, index, stride);
    }

    /** operator*: while there are entries left, the index is at one that has not been visited. */
    lemma AtIndex(index: nat, count: nat, stride: nat, start: nat, t: nat, done: set<K>)
      requires Valid() && count < numActive
      requires Iterating(slots[..], contents, start, stride, index, t, count, done)
      ensures index < slots.Length && slots[index].Held? && slots[index].key !in done
      ensures slots[index].key in contents && slots[index].value == contents[slots[index].key]
    {
      MapStores(slots[..], hash, contents);
      AtEntry(slots[..], contents, start, stride, index, t, count, done);
    }

    /** operator++: to the next active slot along the walk, unless all entries have been visited. */
    method Advance(index: nat, count: nat, stride: nat, ghost start: nat, ghost t: nat, ghost done: set<K>)
      returns (index': nat, ghost t': nat)
      requires Valid() && count < numActive && stride % 2 == 1 && start < slots.Length && stride < slots.Length
      requires Iterating(slots[..], contents, start, stride, index, t, count, done)
      ensures index < slots.Length && slots[index].Held? && slots[index].key !in done
      ensures slots[index].key in contents && slots[index].value == contents[slots[index].key]
      ensures Iterating(slots[..], contents, start, stride, index', t', count + 1, done + {slots[index].key})
    {
      ghost var s := slots[..];
      MapStores(s, hash, contents);
      hide IsMap, Pow2, Capacity, Iterating, Orbit, Visited, KeysAt, Stores;
      AtEntry(s, contents, start, stride, index, t, count, done);
      index', t' := index, t + 1;
      if count + 1 < numActive {
        index', t' := NextActive(index, stride, start, t, done + {s[index].key});
      } else {
        AllIterated(s, contents, start, stride, index', t', done + {s[index].key});
      }
    }

    method NextActive(index: nat, stride: nat, ghost start: nat, ghost t: nat, ghost done: set<K>)
      returns (index': nat, ghost t': nat)
      requires slots.Length == Pow2(lgCur) && Stores(slots[..], contents)
      requires stride % 2 == 1 && start < slots.Length && stride < slots.Length
      requires t < slots.Length && index < slots.Length && index == Orbit(start, stride, slots.Length, t)
      requires KeysAt(slots[..], Visited(start, stride, slots.Length, t + 1)) == done
      requires |done| < |contents| && done <= contents.Keys
      ensures Iterating(slots[..], contents, start, stride, index', t', |done|, done)
    {
      hide Pow2, Iterating, Orbit, Step, Visited, KeysAt, Stores;
      ghost var s := slots[..];
      MoreToVisit(s, contents, lgCur, start, stride, t + 1, done);
      OrbitStep(start, stride, slots.Length, t);
      index', t' := Step(index, stride, slots.Length), t + 1;
      while slots[index'].Free?
        invariant index' < slots.Length && t < t' < slots.Length && index' == Orbit(start, stride, slots.Length, t')
        invariant KeysAt(s, Visited(start, stride, slots.Length, t')) == done
        decreases slots.Length - t'
      {
        hide Pow2, Iterating, Orbit, Step, Visited, KeysAt, Stores;
        SkipFree(s, start, stride, t');
        MoreToVisit(s, contents, lgCur, start, stride, t' + 1, done);
        OrbitStep(start, stride, slots.Length, t');
        index' := Step(index', stride, slots.Length);
        t' := t' + 1;
      }
      AtNextEntry(s, contents, lgCur, start, stride, index', t', done);
    }
  }

  // ----- growing -----

  lemma EmptyMap<K>(hash: K -> nat, n: nat)
    ensures IsMap(seq(n, _ => Free), hash, map[])
  {
  }

  lemma MapStores<K>(s: seq<Slot<K>>, hash: K -> nat, contents: map<K, nat>)
    requires IsMap(s, hash, contents)
    ensures Stores(s, contents)
  {
  }

  lemma ShortMap<K>(s: seq<Slot<K>>, hash: K -> nat, contents: map<K, nat>)
    requires IsMap(s, hash, contents) && |contents| < DRIFT_LIMIT - 1
    ensures ShortRuns(s)
  {
    hide Placed, ShortRuns;
    FewEntries(s, contents);
  }

  /** Purging a full map leaves it less than full. */
  lemma PurgeShrinks<K>(all: map<K, nat>, median: nat, lg: nat)
    requires |all| == Capacity(lg) + 1
    requires IsMedian(all, median, SampleSize(lg))
    ensures |Reduced(all, median)| + SampleSize(lg) / 2 + 1 <= |all|
  {
    ReducedSize(all, median);
  }

  ghost function PrefixKeys<K>(s: seq<Slot<K>>, i: nat): set<K> {
    set j: nat | j < i && j < |s| && s[j].Held? :: s[j].key
  }

  ghost function Restricted<K>(contents: map<K, nat>, keys: set<K>): map<K, nat> {
    map key | key in contents && key in keys :: contents[key]
  }

  lemma NextRestricted<K>(s: seq<Slot<K>>, all: map<K, nat>, i: nat)
    requires Stores(s, all) && i < |s|
    ensures s[i].Free? ==> Restricted(all, PrefixKeys(s, i + 1)) == Restricted(all, PrefixKeys(s, i))
    ensures s[i].Held? ==>
              && Restricted(all, PrefixKeys(s, i + 1)) == Adjust(Restricted(all, PrefixKeys(s, i)), s[i].key, s[i].value)
              && |Restricted(all, PrefixKeys(s, i))| < |Restricted(all, PrefixKeys(s, i + 1))|
    ensures |Restricted(all, PrefixKeys(s, i + 1))| <= |all|
  {
    hide HasKey;
    SubsetSize(Restricted(all, PrefixKeys(s, i + 1)).Keys, all.Keys);
    NextPrefix(s, i);
    hide PrefixKeys;
    if s[i].Held? {
      assert s[i].key !in PrefixKeys(s, i);
      AdjustSize(Restricted(all, PrefixKeys(s, i)), s[i].key, s[i].value);
    }
  }

  lemma NextPrefix<K>(s: seq<Slot<K>>, i: nat)
    requires i < |s| && KeysDiffer(s)
    ensures s[i].Held? ==> s[i].key !in PrefixKeys(s, i) && PrefixKeys(s, i + 1) == PrefixKeys(s, i) + {s[i].key}
    ensures s[i].Free? ==> PrefixKeys(s, i + 1) == PrefixKeys(s, i)
  {
  }

  lemma AllRestricted<K>(s: seq<Slot<K>>, all: map<K, nat>)
    requires Stores(s, all)
    ensures Restricted(all, PrefixKeys(s, 0)) == map[] && Restricted(all, PrefixKeys(s, |s|)) == all
  {
    forall key | key in all ensures key in PrefixKeys(s, |s|) {
      assert HasKey(s, key);
    }
  }

  lemma NoValues<K>(s: seq<Slot<K>>)
    ensures Values(s[..0]) == []
  {
  }

  lemma NextValues<K>(s: seq<Slot<K>>, i: nat)
    requires i < |s|
    ensures Values(s[..i + 1]) == Values(s[..i]) + if s[i].Held? then [s[i].value] else []
  {
    assert s[..i + 1][..i] == s[..i];
  }

  // ----- walking along a probe path -----

  /** The slots from the key's home up to r hold other keys. */
  ghost predicate Walked<K>(s: seq<Slot<K>>, hash: K -> nat, key: K, r: nat) {
    && r < |s|
    && forall j: nat | j < |s| && InArc(Home(hash, key, |s|), j, r) :: s[j].Held? && s[j].key != key
  }

  lemma WalkStarts<K>(s: seq<Slot<K>>, hash: K -> nat, key: K)
    requires |s| > 0
    ensures 0 <= Home(hash, key, |s|) < |s| && Walked(s, hash, key, Home(hash, key, |s|))
  {
  }

  lemma WalkOn<K>(s: seq<Slot<K>>, hash: K -> nat, key: K, r: nat, e: nat)
    requires Walked(s, hash, key, r) && s[r].Held? && s[r].key != key && e < |s| && s[e].Free?
    ensures Walked(s, hash, key, Next(r, |s|))
    ensures var home := Home(hash, key, |s|); Distance(home, Next(r, |s|), |s|) == Distance(home, r, |s|) + 1 < |s|
  {
    var home := Home(hash, key, |s|);
    hide Home;
    assert !InArc(home, e, r);
  }

  lemma WalkEnds<K>(s: seq<Slot<K>>, hash: K -> nat, contents: map<K, nat>, key: K, r: nat)
    requires IsMap(s, hash, contents) && Walked(s, hash, key, r) && (s[r].Held? ==> s[r].key == key)
    ensures ProbedTo(s, hash, key, r)
    ensures key in contents <==> s[r].Held?
    ensures s[r].Held? ==> s[r].key == key && contents[key] == s[r].value
  {
    ProbeFinds(s, hash, contents, key, r);
  }

  lemma WalkLength<K>(s: seq<Slot<K>>, hash: K -> nat, key: K, r: nat)
    requires Walked(s, hash, key, r) && ShortRuns(s)
    ensures Distance(Home(hash, key, |s|), r, |s|) < DRIFT_LIMIT - 1
  {
    assert IsRun(s, Home(hash, key, |s|), r);
    hide Home;
  }

  // ----- iterating -----

  const GOLDEN_RATIO_RECIPROCAL: real := 0.6180339887498949

  lemma NextOdd(x: real, s: int)
    requires s as real <= x < s as real + 1.0
    ensures var t := if s % 2 == 0 then s + 1 else s; t % 2 == 1 && x - 1.0 < t as real <= x + 1.0
  {
  }

  lemma StrideFits(n: nat, s: int)
    requires n >= 8 && s as real <= n as real * GOLDEN_RATIO_RECIPROCAL < s as real + 1.0
    ensures 0 <= s && s + 1 < n
  {
  }

  /** n over the golden ratio, rounded down and made odd. */
  function IteratorStride(n: nat): (stride: nat)
    requires n >= 8
    ensures stride % 2 == 1 && stride < n
    ensures n as real * GOLDEN_RATIO_RECIPROCAL - 1.0 < stride as real <= n as real * GOLDEN_RATIO_RECIPROCAL + 1.0
  {
    var quotient := n as real * GOLDEN_RATIO_RECIPROCAL;
    var s := quotient.Floor;
    assert s as real <= quotient < s as real + 1.0;
    NextOdd(quotient, s);
    StrideFits(n, s);
    if s % 2 == 0 then s + 1 else s
  }

  /** The keys in done have been visited, count of them; if there are more, slot index, which step t
      of the walk has reached, holds another one. */
  ghost predicate Iterating<K>(s: seq<Slot<K>>, contents: map<K, nat>, start: nat, stride: nat, index: nat, t: nat,
                               count: nat, done: set<K>)
  {
    && |done| == count && done <= contents.Keys
    && start < |s| && stride < |s|
    && (count < |contents| ==>
          && t < |s| && index < |s| && index == Orbit(start, stride, |s|, t)
          && s[index].Held? && s[index].key !in done
          && done == KeysAt(s, Visited(start, stride, |s|, t)))
  }

  lemma FullEnough<K>(s: seq<Slot<K>>, hash: K -> nat, contents: map<K, nat>, n: nat)
    requires IsMap(s, hash, contents) && n == |contents|
    ensures Stores(s, contents)
  {
  }

  lemma StartIterating<K>(s: seq<Slot<K>>, contents: map<K, nat>, index: nat, stride: nat)
    requires Stores(s, contents) && 0 < |s| && stride < |s| && index <= |s|
    requires forall i: nat | i < index :: s[i].Free?
    requires index < |s| ==> s[index].Held?
    ensures Iterating(s, contents, if index < |s| then index else 0, stride, index, 0, 0, {})
  {
    assert Visited(if index < |s| then index else 0, stride, |s|, 0) == {};
    assert KeysAt(s, {}) == {};
    if index == |s| {
      assert forall key | key in contents :: HasKey(s, key);
      assert contents.Keys == {};
    }
  }

  lemma OrbitStep(start: nat, stride: nat, n: nat, t: nat)
    requires start < n && stride < n
    ensures Orbit(start, stride, n, t + 1) == Step(Orbit(start, stride, n, t), stride, n) < n
  {
  }

  lemma AtEntry<K>(s: seq<Slot<K>>, contents: map<K, nat>, start: nat, stride: nat, index: nat, t: nat, count: nat, done: set<K>)
    requires Stores(s, contents) && Iterating(s, contents, start, stride, index, t, count, done) && count < |contents|
    ensures t < |s| && index < |s| && s[index].Held? && s[index].key !in done && start < |s| && stride < |s|
    ensures index == Orbit(start, stride, |s|, t)
    ensures s[index].key in contents && s[index].value == contents[s[index].key]
    ensures |done + {s[index].key}| == count + 1
    ensures KeysAt(s, Visited(start, stride, |s|, t + 1)) == done + {s[index].key}
    ensures done + {s[index].key} <= contents.Keys
  {
    VisitedNext(start, stride, |s|, t);
    hide Orbit, Visited, HasKey;
  }

  lemma SkipFree<K>(s: seq<Slot<K>>, start: nat, stride: nat, t: nat)
    requires start < |s| && stride < |s| && s[Orbit(start, stride, |s|, t)].Free?
    ensures KeysAt(s, Visited(start, stride, |s|, t + 1)) == KeysAt(s, Visited(start, stride, |s|, t))
  {
    VisitedNext(start, stride, |s|, t);
    hide Orbit, Visited;
  }

  /** As long as keys are missing, the walk is not over. */
  lemma MoreToVisit<K>(s: seq<Slot<K>>, contents: map<K, nat>, lg: nat, start: nat, stride: nat, t: nat, done: set<K>)
    requires Stores(s, contents) && |s| == Pow2(lg) && start < |s| && stride < |s| && stride % 2 == 1 && t <= |s|
    requires KeysAt(s, Visited(start, stride, |s|, t)) == done && |done| < |contents|
    ensures t < |s|
  {
    if t == |s| {
      AllVisited(start, stride, lg);
      forall key | key in contents ensures key in done {
        assert HasKey(s, key);
      }
      SubsetSize(contents.Keys, done);
    }
  }

  lemma AtNextEntry<K>(s: seq<Slot<K>>, contents: map<K, nat>, lg: nat, start: nat, stride: nat, index: nat, t: nat, done: set<K>)
    requires Stores(s, contents) && |s| == Pow2(lg) && start < |s| && stride < |s| && stride % 2 == 1
    requires t < |s| && index < |s| && index == Orbit(start, stride, |s|, t) && s[index].Held?
    requires KeysAt(s, Visited(start, stride, |s|, t)) == done && done <= contents.Keys
    ensures Iterating(s, contents, start, stride, index, t, |done|, done)
  {
    forall u: nat | u < t ensures Orbit(start, stride, |s|, u) != index {
      OrbitInjective(start, stride, lg, u, t);
    }
    hide Orbit, HasKey;
    assert index !in Visited(start, stride, |s|, t);
  }

  lemma EverythingDone<K>(s: seq<Slot<K>>, contents: map<K, nat>, start: nat, stride: nat, index: nat, t: nat, count: nat,
                          done: set<K>)
    requires Iterating(s, contents, start, stride, index, t, count, done) && count >= |contents|
    ensures done == contents.Keys && Restricted(contents, done) == contents
  {
    assert |contents.Keys - done| == |contents.Keys| - |done| by {
      assert contents.Keys == (contents.Keys - done) + done;
    }
    assert contents.Keys - done == {};
  }

  lemma AllIterated<K>(s: seq<Slot<K>>, contents: map<K, nat>, start: nat, stride: nat, index: nat, t: nat, done: set<K>)
    requires start < |s| && stride < |s| && done <= contents.Keys && |done| >= |contents|
    ensures Iterating(s, contents, start, stride, index, t, |done|, done)
  {
  }
}
