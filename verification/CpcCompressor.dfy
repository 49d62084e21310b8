/** The CPC compressor: a sketch's window as prefix-coded bytes and its table as Golomb-coded pairs,
    in a different way for each flavor (cpc/include/cpc_compressor_impl.hpp). */
module CpcCompressors {
  import opened Words
  import opened Strides
  import opened U32Tables
  import opened CpcSketches
  import opened CpcUtil
  import opened CpcRuns
  import opened CpcUnions
  import opened Folding
  import opened Sorting
  import opened PairLists
  import opened BitStreams
  import opened BitCodes
  import opened UnaryTable

  // ----- choosing codes -----

  function Log2(x: nat): nat {
    if x < 2 then 0 else 1 + Log2(x / 2)
  }

  lemma {:induction false} Log2Is(x: nat, p: nat)
    requires Pow2(p) <= x < Pow2(p + 1)
    ensures Log2(x) == p
  {
    if p > 0 {
      Log2Is(x / 2, p - 1);
    }
  }

  lemma {:induction false} Log2Fits(x: nat, n: nat)
    requires 1 <= x <= Pow2(n)
    ensures Log2(x) <= n
    decreases n
  {
    if x >= 2 {
      assert n > 0;
      Log2Fits(x / 2, n - 1);
    }
  }

  /** The base-2 logarithm of the mean row distance, or 0. */
  function GolombBaseBits(k: nat, count: nat): nat
    requires count > 0
  {
    if k / count == 0 then 0 else Log2(k / count)
  }

  /** None stands for the exceptions on numbers below 1. The difference is one of 64 bits, and wraps
      around if the first number, which has 32 bits only, is below the second. */
  method GolombChooseNumberOfBaseBits(kPlusCount: nat, count: nat) returns (b: Option<nat>)
    requires kPlusCount <= count + Pow2(63)
    ensures b.None? <==> kPlusCount < 1 || count < 1
    ensures b.Some? ==> b.value == GolombBaseBits((kPlusCount - count) % U64_SIZE, count)
    ensures b.Some? && count <= kPlusCount <= count + Pow2(MAX_LG_K) ==>
              b.value == GolombBaseBits(kPlusCount - count, count) <= MAX_LG_K
  {
    if kPlusCount < 1 || count < 1 {
      return None;
    }
    DifferenceWraps(kPlusCount, count);
    hide Pow2, Log2;
    var difference: nat := (kPlusCount - count) % U64_SIZE;
    QuotientAtMost(difference, count);
    var quotient: nat := difference / count;
    if quotient == 0 {
      return Some(0);
    }
    b := FloorLog2OfLong(quotient);
    Log2Is(quotient, b.value);
    if count <= kPlusCount <= count + Pow2(MAX_LG_K) {
      Log2Fits(quotient, MAX_LG_K);
    }
  }

  /** A wrapped difference is never divided by 1, so the quotient always has a logarithm. */
  lemma DifferenceWraps(kPlusCount: nat, count: nat)
    requires 1 <= kPlusCount <= count + Pow2(63) && 1 <= count
    ensures var difference := (kPlusCount - count) % U64_SIZE;
            && difference / count <= Pow2(63)
            && (count <= kPlusCount ==> difference == kPlusCount - count && difference / count <= difference)
  {
    var difference := (kPlusCount - count) % U64_SIZE;
    Pow2Values();
    assert Pow2(64) == 2 * Pow2(63);
    hide Pow2;
    if count <= kPlusCount {
      DivUnique(kPlusCount - count, U64_SIZE, 0, kPlusCount - count);
    }
    QuotientAtMost(difference, count);
    if count >= 2 {
      QuotientOfTwo(difference, count, U64_SIZE);
    }
  }

  lemma QuotientOfTwo(x: nat, d: nat, n: nat)
    requires d >= 2 && x < n
    ensures 2 * (x / d) <= n
  {
    var q: nat := x / d;
    assert x == d * q + x % d;
    MulMono(q, 2, d);
  }

  lemma QuotientAtMost(x: nat, d: nat)
    requires d > 0
    ensures 0 <= x / d <= x
  {
    MulMono(x + 1, 1, d);
    QuotientFits(x, d, x + 1);
  }

  /** Which of the 16 + 6 byte codes suits a sketch of this size. The products wrap around for large
      sketches, so the answer is not always the intended one. */
  function DeterminePseudoPhase(lgK: nat, c: nat): (phase: nat)
    requires lgK >= 4
    ensures phase < 22
    ensures Low32(1000 * c) >= Low32(2375 * Pow2(lgK)) ==> phase < 16
  {
    var k := Pow2(lgK);
    if Low32(1000 * c) < Low32(2375 * k) then
      if Low32(4 * c) < Low32(3 * k) then 16 + 0
      else if Low32(10 * c) < Low32(11 * k) then 16 + 1
      else if Low32(100 * c) < Low32(132 * k) then 16 + 2
      else if Low32(3 * c) < Low32(5 * k) then 16 + 3
      else if Low32(1000 * c) < Low32(1965 * k) then 16 + 4
      else if Low32(1000 * c) < Low32(2275 * k) then 16 + 5
      else 6 // ahead of the phases that cycle through the tables 0 to 15
    else
      Shr(c, lgK - 4) % 16
  }

  // ----- column permutations -----

  ghost predicate IsPermutation(p: seq<nat>) {
    && (forall i | 0 <= i < |p| :: p[i] < |p|)
    && NoDuplicates(p)
  }

  ghost predicate AreInverse(p: seq<nat>, q: seq<nat>) {
    && |p| == |q|
    && (forall i | 0 <= i < |p| :: p[i] < |p| && q[p[i]] == i)
    && (forall i | 0 <= i < |q| :: q[i] < |q| && p[q[i]] == i)
  }

  lemma PermutationHits(p: seq<nat>, x: nat)
    requires IsPermutation(p) && x < |p|
    ensures exists i :: 0 <= i < |p| && p[i] == x
  {
    DistinctCount(p);
    assert Elements(p) <= Below(|p|);
    SubsetOfEqualSize(Elements(p), Below(|p|));
    assert x in Elements(p);
  }

  /** The check that the inverse is one cannot fail for a permutation. */
  method MakeInversePermutation(permu: seq<nat>) returns (inverse: seq<nat>)
    requires IsPermutation(permu)
    ensures AreInverse(permu, inverse)
  {
    inverse := seq(|permu|, _ => 0);
    for i := 0 to |permu|
      invariant |inverse| == |permu|
      invariant forall j | 0 <= j < i :: inverse[permu[j]] == j
    {
      inverse := inverse[permu[i] := i];
    }
    forall x | 0 <= x < |permu| ensures 0 <= inverse[x] < |permu| && permu[inverse[x]] == x {
      PermutationHits(permu, x);
    }
  }

  // ----- lists and sets -----

  /** The pairs of a set in increasing order. */
  ghost predicate ListOf(pairs: seq<nat>, s: set<nat>) {
    Increasing(pairs) && Elements(pairs) == s
  }

  lemma MultisetElements(s: seq<nat>, t: seq<nat>)
    requires multiset(s) == multiset(t)
    ensures Elements(s) == Elements(t) && |s| == |t|
  {
    assert forall x :: x in s <==> x in multiset(s);
    assert forall x :: x in t <==> x in multiset(t);
    assert |s| == |multiset(s)| == |multiset(t)| == |t|;
  }

  lemma SortedIsIncreasing(s: seq<nat>, t: seq<nat>)
    requires NoDuplicates(s) && multiset(s) == multiset(t) && SortedRange(t, 0, |t|)
    ensures ListOf(t, Elements(s))
  {
    MultisetElements(s, t);
    DistinctCount(s);
    CountedIsDistinct(t);
  }

  method SortPairs(pairs: array<nat>)
    requires NoDuplicates(pairs[..])
    modifies pairs
    ensures ListOf(pairs[..], Elements(old(pairs[..])))
  {
    IntrospectiveInsertionSort(pairs, 0, pairs.Length);
    SortedIsIncreasing(old(pairs[..]), pairs[..]);
  }

  ghost function Image(s: set<nat>, f: nat -> nat): set<nat> {
    set x | x in s :: f(x)
  }

  ghost predicate Undoes(g: nat -> nat, f: nat -> nat, s: set<nat>) {
    forall x | x in s :: g(f(x)) == x
  }

  /** Rewrites every pair in place. */
  method MapPairs(pairs: array<nat>, f: nat -> nat)
    modifies pairs
    ensures forall i | 0 <= i < pairs.Length :: pairs[i] == f(old(pairs[i]))
  {
    for i := 0 to pairs.Length
      invariant forall j | 0 <= j < i :: pairs[j] == f(old(pairs[j]))
      invariant forall j | i <= j < pairs.Length :: pairs[j] == old(pairs[j])
    {
      pairs[i] := f(pairs[i]);
    }
  }

  lemma MappedPairs(s: seq<nat>, t: seq<nat>, f: nat -> nat, g: nat -> nat)
    requires NoDuplicates(s) && |s| == |t| && (forall i | 0 <= i < |s| :: t[i] == f(s[i]))
    requires Undoes(g, f, Elements(s))
    ensures NoDuplicates(t) && Elements(t) == Image(Elements(s), f)
  {
    forall i, j | 0 <= i < j < |t| ensures t[i] != t[j] {
      assert s[i] in Elements(s) && s[j] in Elements(s);
      assert g(f(s[i])) == s[i] && g(f(s[j])) == s[j];
    }
    forall x | x in Elements(s) ensures f(x) in Elements(t) {
      var i :| 0 <= i < |s| && s[i] == x;
      assert t[i] in t;
    }
    forall y | y in Elements(t) ensures y in Image(Elements(s), f) {
      var i :| 0 <= i < |t| && t[i] == y;
      assert s[i] in Elements(s);
    }
  }

  lemma UndoneImage(s: set<nat>, f: nat -> nat, g: nat -> nat)
    requires Undoes(g, f, s)
    ensures Image(Image(s, f), g) == s && Undoes(f, g, Image(s, f))
  {
    forall x | x in s ensures x in Image(Image(s, f), g) {
      assert f(x) in Image(s, f);
    }
  }

  // ----- the column transformations -----

  /** Every column of a pinned sketch's table is at least 8, so the pair itself can be lowered. */
  function Lowered(c: nat): nat {
    if Col(c) < 8 then c else c - 8
  }

  function Raised(c: nat): nat {
    c + 8
  }

  lemma RaisedLowered(items: set<nat>, k: nat)
    requires OutsideWindow(items, 0) && forall c | c in items :: c < 64 * k
    ensures Undoes(Raised, Lowered, items)
    ensures forall c | c in items :: 8 <= Col(c)
    ensures forall x | x in Image(items, Lowered) :: x < 64 * k && Col(x) < 56
  {
  }

  /** Turns the columns so that those behind the window come first, then permutes them. */
  function PermutedColumns(permutation: seq<nat>, offset: nat): nat -> nat {
    c =>
      var col := (Col(c) + 56 - offset) % 64;
      if 0 <= col < |permutation| then Cell(Row(c), permutation[col]) else c
  }

  /** Undoes the permutation, then the rotation. */
  function RestoredColumns(inverse: seq<nat>, offset: nat): nat -> nat {
    c =>
      if Col(c) < |inverse| then Cell(Row(c), (inverse[Col(c)] + (offset + 8)) % 64) else c
  }

  lemma RotatedColumn(col: nat, offset: nat)
    requires offset <= 56 && col < 64 && (col < offset || offset + 8 <= col)
    ensures 0 <= (col + 56 - offset) % 64 < 56
    ensures ((col + 56 - offset) % 64 + (offset + 8)) % 64 == col
  {
  }

  lemma PermutedAt(c: nat, offset: nat, permutation: seq<nat>, rotated: nat)
    requires rotated == (Col(c) + 56 - offset) % 64 && rotated < |permutation|
    ensures PermutedColumns(permutation, offset)(c) == Cell(Row(c), permutation[rotated])
  {
    hide Col, Row, Cell;
  }

  lemma RestoredAt(row: nat, col: nat, offset: nat, inverse: seq<nat>)
    requires col < |inverse| && col < 64
    ensures RestoredColumns(inverse, offset)(Cell(row, col)) == Cell(row, (inverse[col] + (offset + 8)) % 64)
  {
    CellParts(row, col);
    hide Col, Row, Cell;
  }

  lemma RestoredPermutedCell(c: nat, k: nat, offset: nat, permutation: seq<nat>, inverse: seq<nat>)
    requires offset <= 56 && c < 64 * k && (Col(c) < offset || offset + 8 <= Col(c))
    requires |permutation| == 56 && AreInverse(permutation, inverse)
    ensures 0 <= (Col(c) + 56 - offset) % 64 < 56
    ensures var x := PermutedColumns(permutation, offset)(c);
            x < 64 * k && Col(x) < 56 && RestoredColumns(inverse, offset)(x) == c
  {
    InverseAt(permutation, inverse);
    hide Col, Row, Cell, AreInverse, PermutedColumns, RestoredColumns;
    OtherColumn(c, k, 0);
    var c0: nat := Col(c);
    RotatedColumn(c0, offset);
    var rotated: nat := (c0 + 56 - offset) % 64;
    var col := permutation[rotated];
    PermutedAt(c, offset, permutation, rotated);
    OtherColumn(c, k, col);
    RestoredAt(Row(c), col, offset, inverse);
  }

  lemma InverseAt(permutation: seq<nat>, inverse: seq<nat>)
    requires AreInverse(permutation, inverse)
    ensures |permutation| == |inverse|
    ensures forall i | 0 <= i < |permutation| :: permutation[i] < |permutation| && inverse[permutation[i]] == i
  {
  }

  lemma OtherColumn(c: nat, k: nat, col: nat)
    requires c < 64 * k && col < 56
    ensures 0 <= Col(c) < 64 && 0 <= Row(c) && Cell(Row(c), Col(c)) == c
    ensures 0 <= Cell(Row(c), col) < 64 * k && Col(Cell(Row(c), col)) == col
  {
  }

  lemma RestoredPermuted(items: set<nat>, k: nat, offset: nat, permutation: seq<nat>, inverse: seq<nat>)
    requires offset <= 56 && OutsideWindow(items, offset) && forall c | c in items :: c < 64 * k
    requires |permutation| == 56 && AreInverse(permutation, inverse)
    ensures forall c | c in items :: 0 <= (Col(c) + 56 - offset) % 64 < 56
    ensures Undoes(RestoredColumns(inverse, offset), PermutedColumns(permutation, offset), items)
    ensures forall x | x in Image(items, PermutedColumns(permutation, offset)) :: x < 64 * k && Col(x) < 56
  {
    hide AreInverse, PermutedColumns, RestoredColumns, Col;
    forall c | c in items
      ensures 0 <= (Col(c) + 56 - offset) % 64 < 56
      ensures var x := PermutedColumns(permutation, offset)(c);
              x < 64 * k && Col(x) < 56 && RestoredColumns(inverse, offset)(x) == c
    {
      RestoredPermutedCell(c, k, offset, permutation, inverse);
    }
  }

  // ----- the compressed state -----

  datatype CompressedState = CompressedState(tableData: seq<nat>, tableDataWords: nat, tableNumEntries: nat,
                                             windowData: seq<nat>, windowDataWords: nat)

  const NOTHING := CompressedState([], 0, 0, [], 0)

  /** The first tableDataWords words are exactly the Golomb code of the pairs with its padding. */
  ghost predicate EncodesPairs(state: CompressedState, pairs: seq<nat>, lgK: nat) {
    && pairs != [] && ListFrom(pairs, 0, 0)
    && state.tableNumEntries == |pairs|
    && state.tableDataWords <= |state.tableData|
    && var b := GolombBaseBits(Pow2(lgK), |pairs|);
       && b <= MAX_LG_K
       && Packs(state.tableData[..state.tableDataWords], Cat(EncodePairs(pairs, b, UnaryCode(), 0, 0), PairsPadding(b)))
  }

  ghost predicate EncodesSet(state: CompressedState, s: set<nat>, lgK: nat) {
    exists pairs :: ListOf(pairs, s) && EncodesPairs(state, pairs, lgK)
  }

  /** A windowed sketch with an empty table leaves the table data out. */
  ghost predicate EncodesTable(state: CompressedState, s: set<nat>, lgK: nat) {
    if s == {} then state.tableData == [] && state.tableNumEntries == 0
    else EncodesSet(state, s, lgK)
  }

  ghost predicate EncodesWindow(state: CompressedState, window: seq<nat>, code: seq<nat>) {
    && AreSymbols(window, code)
    && state.windowData != []
    && state.windowDataWords <= |state.windowData|
    && Packs(state.windowData[..state.windowDataWords], Cat(EncodeBytes(window, code), BYTES_PADDING))
  }

  /** The encoder of these pairs writes behind the end of table_data. */
  ghost predicate PairsOverrun(pairs: seq<nat>, lgK: nat)
    requires Increasing(pairs)
  {
    pairs != [] && Overruns(pairs, GolombBaseBits(Pow2(lgK), |pairs|), UnaryCode(), Pow2(lgK))
  }

  ghost predicate SetOverruns(s: set<nat>, lgK: nat) {
    exists pairs :: ListOf(pairs, s) && PairsOverrun(pairs, lgK)
  }

  /** None if the words of the code do not fit into table_data. The model keeps all of them, wherever
      they are written, and then compares their number to the length that has been allotted. */
  method CompressSurprisingValues(pairs: seq<nat>, lgK: nat, state: CompressedState) returns (result: Option<CompressedState>)
    requires pairs != [] && Increasing(pairs) && lgK <= MAX_LG_K
    requires forall i | 0 <= i < |pairs| :: pairs[i] < 64 * Pow2(lgK)
    ensures result.None? <==> PairsOverrun(pairs, lgK)
    ensures result.Some? ==> EncodesPairs(result.value, pairs, lgK) && result.value.tableData != []
    ensures result.Some? ==>
              result.value.windowData == state.windowData && result.value.windowDataWords == state.windowDataWords
  {
    hide Pow2, IsCode, IsPrefixCode, Packs, EncodePairs, GolombBaseBits, SafeLengthForCompressedPairBuf,
         SufficientLength, Increasing;
    UnaryIsPrefixCode();
    assert IsCode(UnaryCode()) by {
      PrefixCodeIsCode(UnaryCode());
    }
    var k, numPairs := Pow2(lgK), |pairs|;
    FromTheStart(pairs, k);
    Pow2Mono(lgK, MAX_LG_K);
    Pow2Mono(MAX_LG_K, 63);
    var chosen := GolombChooseNumberOfBaseBits(k + numPairs, numPairs);
    var numBaseBits := chosen.value;
    var tableLen := SafeLengthForCompressedPairBuf(k, numPairs, numBaseBits);
    SufficientPairBuf(pairs, numBaseBits, UnaryCode(), k);
    SafeIsSufficient(k, numPairs, numBaseBits);
    var memory := new nat[SufficientLength(k, numPairs, numBaseBits)](_ => 0);
    var csvLength := LowLevelCompressPairs(pairs, numBaseBits, UnaryCode(), memory);
    WordsNeeded(memory[..csvLength], Cat(EncodePairs(pairs, numBaseBits, UnaryCode(), 0, 0), PairsPadding(numBaseBits)), tableLen);
    if csvLength > tableLen {
      return None;
    }
    SomePairs(pairs, numBaseBits, memory[..csvLength]);
    assert memory[..tableLen][..csvLength] == memory[..csvLength];
    result := Some(state.(tableData := memory[..tableLen], tableDataWords := csvLength, tableNumEntries := numPairs));
  }

  lemma WordsNeeded(words: seq<nat>, s: Bits, n: nat)
    requires Packs(words, s)
    ensures |words| > n <==> 32 * n < s.len
  {
  }

  /** No list of fewer than 2^32 / 12 pairs overruns the buffer. */
  lemma FewPairsFit(pairs: seq<nat>, lgK: nat)
    requires Increasing(pairs) && lgK <= MAX_LG_K && 12 * |pairs| < U32_SIZE
    requires forall i | 0 <= i < |pairs| :: pairs[i] < 64 * Pow2(lgK)
    ensures !PairsOverrun(pairs, lgK)
  {
    if pairs != [] {
      UnaryIsPrefixCode();
      hide IsCode, IsPrefixCode, EncodePairs, GolombBaseBits, Overruns, Increasing, UnaryCode, NothingWraps;
      PrefixCodeIsCode(UnaryCode());
      FromTheStart(pairs, Pow2(lgK));
      RowCountFits(lgK);
      hide Pow2;
      var b: nat := GolombBaseBits(Pow2(lgK), |pairs|);
      RowPartsFit(Pow2(lgK), |pairs|);
      SafePairBuf(pairs, b, UnaryCode(), Pow2(lgK));
    }
  }

  lemma RowCountFits(lgK: nat)
    requires lgK <= MAX_LG_K
    ensures Pow2(lgK) <= 67108864
  {
    Pow2Mono(lgK, MAX_LG_K);
    LargePowers();
  }

  lemma RowPartsFit(k: nat, n: nat)
    requires n > 0 && k <= 67108864 && 12 * n < U32_SIZE
    ensures NothingWraps(k, n, GolombBaseBits(k, n))
  {
    var b: nat := GolombBaseBits(k, n);
    ShrAtMost(k, b);
    hide Log2, GolombBaseBits, Shr;
    RowPartAtMost(k, n);
  }

  lemma RowPartAtMost(k: nat, n: nat)
    requires n > 0
    ensures n * (1 + GolombBaseBits(k, n)) <= n + k
  {
    WholeQuotients(k, n);
    var q: nat := k / n;
    if q > 0 {
      Log2Low(q);
      Doublings(Log2(q));
      hide Log2, Pow2;
      MulMono(n, 1 + Log2(q), q);
    }
  }

  lemma WholeQuotients(k: nat, n: nat)
    requires n > 0
    ensures n * (k / n) <= k
  {
  }

  lemma {:induction false} ShrAtMost(x: nat, n: nat)
    ensures Shr(x, n) <= x
  {
    if n > 0 {
      ShrAtMost(x / 2, n - 1);
    }
  }

  lemma {:induction false} Log2Low(x: nat)
    requires x > 0
    ensures Pow2(Log2(x)) <= x
  {
    if x >= 2 {
      Log2Low(x / 2);
    }
  }

  lemma {:induction false} Doublings(b: nat)
    ensures 1 + b <= Pow2(b)
  {
    if b > 0 {
      Doublings(b - 1);
    }
  }

  lemma LargePowers()
    ensures Pow2(17) == 131072 && Pow2(18) == 262144 && Pow2(19) == 524288 && Pow2(20) == 1048576
    ensures Pow2(21) == 2097152 && Pow2(22) == 4194304 && Pow2(23) == 8388608 && Pow2(24) == 16777216
    ensures Pow2(25) == 33554432 && Pow2(26) == 67108864
  {
    assert Pow2(8) == 256;
    Pow2Add(8, 8);
  }

  lemma LastOfList(a: seq<nat>)
    requires Increasing(a) && a != []
    ensures var n := |a| - 1;
            && Increasing(a[..n]) && a[n] in Elements(a) && (forall x | x in Elements(a) :: x <= a[n])
            && Elements(a[..n]) == Elements(a) - {a[n]} && a == a[..n] + [a[n]]
  {
    var n := |a| - 1;
    assert a == a[..n] + [a[n]];
    forall x | x in Elements(a) ensures x <= a[n] && (x in Elements(a[..n]) <==> x != a[n]) {
      var i :| 0 <= i < |a| && a[i] == x;
      assert i < n ==> a[..n][i] == x;
    }
  }

  /** A set has one increasing list only. */
  lemma {:induction false} OneList(a: seq<nat>, b: seq<nat>)
    requires Increasing(a) && Increasing(b) && Elements(a) == Elements(b)
    ensures a == b
  {
    IncreasingCount(a);
    IncreasingCount(b);
    if a != [] {
      LastOfList(a);
      LastOfList(b);
      hide Increasing, Elements;
      assert a[|a| - 1] == b[|b| - 1];
      OneList(a[..|a| - 1], b[..|b| - 1]);
    }
  }

  lemma OverrunOfList(pairs: seq<nat>, s: set<nat>, lgK: nat)
    requires ListOf(pairs, s)
    ensures SetOverruns(s, lgK) <==> PairsOverrun(pairs, lgK)
  {
    hide PairsOverrun;
    if SetOverruns(s, lgK) {
      var other :| ListOf(other, s) && PairsOverrun(other, lgK);
      OneList(pairs, other);
    }
  }

  lemma PrefixCodeIsCode(enc: seq<nat>)
    requires IsPrefixCode(enc)
    ensures IsCode(enc)
  {
  }

  lemma FromTheStart(pairs: seq<nat>, k: nat)
    requires Increasing(pairs) && forall i | 0 <= i < |pairs| :: pairs[i] < 64 * k
    ensures ListFrom(pairs, 0, 0) && forall i | 0 <= i < |pairs| :: Row(pairs[i]) < k
  {
  }

  lemma SomePairs(pairs: seq<nat>, b: nat, words: seq<nat>)
    requires pairs != [] && ListFrom(pairs, 0, 0)
    requires Packs(words, Cat(EncodePairs(pairs, b, UnaryCode(), 0, 0), PairsPadding(b)))
    ensures words != []
  {
    EncodeNextPair(pairs, b, UnaryCode(), 0, 0, 0);
    assert pairs[0..] == pairs;
  }

  method UncompressSurprisingValues(state: CompressedState, lgK: nat, dec: seq<nat>, ghost pairs: seq<nat>)
    returns (pairArray: array<nat>)
    requires EncodesPairs(state, pairs, lgK) && lgK <= MAX_LG_K && Decodes(dec, UnaryCode())
    ensures fresh(pairArray) && pairArray[..] == pairs
  {
    hide Pow2, IsCode, IsPrefixCode, Packs, EncodePairs, GolombBaseBits, Increasing, ListFrom, Decodes;
    UnaryIsPrefixCode();
    assert IsCode(UnaryCode()) by {
      PrefixCodeIsCode(UnaryCode());
    }
    var k, numPairs := Pow2(lgK), state.tableNumEntries;
    Pow2Mono(lgK, MAX_LG_K);
    pairArray := new nat[numPairs](_ => 0);
    Pow2Mono(MAX_LG_K, 63);
    var chosen := GolombChooseNumberOfBaseBits(k + numPairs, numPairs);
    var numBaseBits := chosen.value;
    LowLevelUncompressPairs(pairArray, numBaseBits, dec, state.tableData[..state.tableDataWords], UnaryCode(), pairs);
  }

  method CompressSlidingWindow(window: seq<nat>, code: seq<nat>, state: CompressedState) returns (result: CompressedState)
    requires IsPrefixCode(code) && AreSymbols(window, code)
    ensures EncodesWindow(result, window, code)
    ensures result.tableData == state.tableData && result.tableDataWords == state.tableDataWords
    ensures result.tableNumEntries == state.tableNumEntries
  {
    hide Packs, EncodeBytes, IsCode, IsPrefixCode, AreSymbols;
    PrefixCodeIsCode(code);
    var windowBufLen := SafeLengthForCompressedWindowBuf(|window|);
    SafeWindowBuf(window, code);
    var windowData := new nat[windowBufLen](_ => 0);
    var dataWords := LowLevelCompressBytes(window, code, windowData);
    assert windowData[..][..dataWords] == windowData[..dataWords];
    result := state.(windowData := windowData[..], windowDataWords := dataWords);
  }

  method UncompressSlidingWindow(state: CompressedState, k: nat, dec: seq<nat>, ghost code: seq<nat>, ghost window: seq<nat>)
    returns (window': seq<nat>)
    requires IsPrefixCode(code) && Decodes(dec, code) && EncodesWindow(state, window, code) && |window| == k
    ensures window' == window
  {
    hide Packs, EncodeBytes, IsCode, IsPrefixCode, AreSymbols, Decodes;
    PrefixCodeIsCode(code);
    var bytes := new nat[k](_ => 0);
    LowLevelUncompressBytes(bytes, dec, state.windowData[..state.windowDataWords], code, window);
    window' := bytes[..];
  }

  // ----- the hybrid flavor: window and table in one list -----

  ghost function FirstColumns(s: set<nat>): set<nat> {
    set c | c in s && Col(c) < 8
  }

  ghost function LaterColumns(s: set<nat>): set<nat> {
    set c | c in s && 8 <= Col(c)
  }

  lemma WindowColumns(window: seq<nat>, k: nat, items: set<nat>)
    requires IsWindow(window, k) && OutsideWindow(items, 0)
    ensures Are64BitRows(window) && MatrixCells(window) !! items
    ensures FirstColumns(MatrixCells(window) + items) == MatrixCells(window)
    ensures LaterColumns(MatrixCells(window) + items) == items
  {
    forall r, i: nat | 0 <= r < k ensures Bit(window[r], i) ==> i < 8 {
      ByteBits(window[r], i);
    }
  }

  lemma SameWindow(window: seq<nat>, window': seq<nat>, k: nat)
    requires IsWindow(window, k) && IsWindow(window', k) && MatrixCells(window) == MatrixCells(window')
    ensures window == window'
  {
    forall r | 0 <= r < k ensures window[r] == window'[r] {
      forall i: nat ensures Bit(window[r], i) == Bit(window'[r], i) {
        ByteBits(window[r], i);
        ByteBits(window'[r], i);
        if i < 64 {
          CellParts(r, i);
          assert Cell(r, i) in MatrixCells(window) <==> Bit(window[r], i);
        }
      }
      SameBits(window[r], window'[r]);
    }
  }

  /** The first i pairs have gone to the window or, moved down, to the front of the array. */
  ghost predicate SplitUpTo(pairs: seq<nat>, i: nat, truePairs: seq<nat>, window: seq<nat>, k: nat) {
    && i <= |pairs| && |truePairs| <= i
    && Increasing(truePairs) && Elements(truePairs) == LaterColumns(Elements(pairs[..i]))
    && IsWindow(window, k) && MatrixCells(window) == FirstColumns(Elements(pairs[..i]))
  }

  lemma SplitNothing(pairs: seq<nat>, k: nat)
    ensures SplitUpTo(pairs, 0, [], seq(k, _ => 0), k)
  {
    forall i: nat ensures !Bit(0, i) {
      ZeroBits(i);
    }
  }

  lemma OneMoreElement(pairs: seq<nat>, i: nat)
    requires i < |pairs|
    ensures Elements(pairs[..i + 1]) == Elements(pairs[..i]) + {pairs[i]}
  {
    assert pairs[..i + 1] == pairs[..i] + [pairs[i]];
  }

  lemma SplitToWindow(pairs: seq<nat>, i: nat, truePairs: seq<nat>, window: seq<nat>, k: nat)
    requires SplitUpTo(pairs, i, truePairs, window, k) && i < |pairs| && pairs[i] < 64 * k && Col(pairs[i]) < 8
    ensures var row := Row(pairs[i]);
            row < |window| && SplitUpTo(pairs, i + 1, truePairs, window[row := Bitwise(Or, window[row], Pow2(Col(pairs[i])))], k)
  {
    OneMoreElement(pairs, i);
    SetCell(window, k, pairs[i]);
    hide Bitwise, IsWindow, MatrixCells, Increasing, Pow2;
  }

  lemma SetCell(window: seq<nat>, k: nat, c: nat)
    requires IsWindow(window, k) && c < 64 * k && Col(c) < 8
    ensures var row := Row(c); var window' := window[row := Bitwise(Or, window[row], Pow2(Col(c)))];
            IsWindow(window', k) && MatrixCells(window') == MatrixCells(window) + {c}
  {
    OrOneBit(window[Row(c)], Col(c));
  }

  lemma SplitToTable(pairs: seq<nat>, i: nat, truePairs: seq<nat>, window: seq<nat>, k: nat)
    requires Increasing(pairs) && SplitUpTo(pairs, i, truePairs, window, k) && i < |pairs| && 8 <= Col(pairs[i])
    ensures SplitUpTo(pairs, i + 1, truePairs + [pairs[i]], window, k)
  {
    OneMoreElement(pairs, i);
    assert Elements(truePairs + [pairs[i]]) == Elements(truePairs) + {pairs[i]};
    forall j | 0 <= j < |truePairs| ensures truePairs[j] < pairs[i] {
      assert truePairs[j] in Elements(truePairs);
    }
  }

  lemma SplitAll(pairs: seq<nat>, truePairs: seq<nat>, window': seq<nat>, k: nat, window: seq<nat>, items: set<nat>)
    requires IsWindow(window, k) && OutsideWindow(items, 0) && ListOf(pairs, MatrixCells(window) + items)
    requires SplitUpTo(pairs, |pairs|, truePairs, window', k)
    ensures window' == window && ListOf(truePairs, items)
  {
    assert pairs[..|pairs|] == pairs;
    WindowColumns(window, k, items);
    hide MatrixCells, IsWindow, OutsideWindow, Increasing;
    SameWindow(window, window', k);
  }

  /** Pairs of the window's columns go into a window, the true pairs move down. */
  method SplitPairs(pairs: array<nat>, k: nat) returns (window: seq<nat>, nextTruePair: nat)
    requires Increasing(pairs[..]) && forall i | 0 <= i < pairs.Length :: pairs[i] < 64 * k && pairs[i] != EMPTY
    modifies pairs
    ensures nextTruePair <= pairs.Length
    ensures SplitUpTo(old(pairs[..]), pairs.Length, pairs[..nextTruePair], window, k)
  {
    hide SplitUpTo, Increasing, Bitwise;
    ghost var all := pairs[..];
    window := seq(k, _ => 0);
    nextTruePair := 0;
    SplitNothing(all, k);
    assert pairs[..0] == [];
    for i := 0 to pairs.Length
      invariant nextTruePair <= i && pairs[i..] == all[i..]
      invariant SplitUpTo(all, i, pairs[..nextTruePair], window, k)
    {
      hide SplitUpTo, Increasing, Bitwise, Pow2, Col, Row;
      var rowCol := pairs[i];
      assert rowCol == pairs[i..][0] == all[i];
      assert rowCol != EMPTY; // the exception "empty marker is not expected" cannot be thrown
      ghost var rest, truePairs := pairs[i..], pairs[..nextTruePair];
      var col := Col(rowCol);
      if col < 8 {
        var row := Row(rowCol);
        SplitToWindow(all, i, truePairs, window, k);
        window := window[row := Bitwise(Or, window[row], Pow2(col))]; // its column is one of the window's
      } else {
        SplitToTable(all, i, truePairs, window, k);
        pairs[nextTruePair] := rowCol; // kept, behind the pairs kept so far
        nextTruePair := nextTruePair + 1;
        assert pairs[..nextTruePair] == truePairs + [rowCol];
      }
      assert pairs[i + 1..] == all[i..][1..];
    }
  }

  // ----- the compressor -----

  method MakeDecodingTables(codes: seq<seq<nat>>) returns (tables: seq<seq<nat>>)
    requires forall i | 0 <= i < |codes| :: |codes[i]| == 256 && IsPrefixCode(codes[i]) && IsComplete(codes[i])
    ensures |tables| == |codes| && forall i | 0 <= i < |codes| :: Decodes(tables[i], codes[i])
  {
    hide IsPrefixCode, IsComplete, Decodes, IsCode;
    tables := [];
    for i := 0 to |codes|
      invariant |tables| == i && forall j | 0 <= j < i :: Decodes(tables[j], codes[j])
    {
      var table := MakeValidatedTable(codes[i]);
      tables := tables + [table];
    }
  }

  method MakeValidatedTable(code: seq<nat>) returns (table: seq<nat>)
    requires IsPrefixCode(code) && IsComplete(code)
    ensures Decodes(table, code)
  {
    hide IsPrefixCode, IsComplete, IsCode, EntryIsRight;
    PrefixCodeIsCode(code);
    table := MakeDecodingTable(code);
    ValidTable(table, code);
    var valid := ValidateDecodingTable(table, code);
    assert valid; // the exceptions "decoded length error" and "bit pattern error" cannot be thrown
  }

  method MakeInversePermutations(permutations: seq<seq<nat>>) returns (inverses: seq<seq<nat>>)
    requires forall i | 0 <= i < |permutations| :: IsPermutation(permutations[i])
    ensures |inverses| == |permutations| && forall i | 0 <= i < |permutations| :: AreInverse(permutations[i], inverses[i])
  {
    hide IsPermutation, AreInverse;
    inverses := [];
    for i := 0 to |permutations|
      invariant |inverses| == i && forall j | 0 <= j < i :: AreInverse(permutations[j], inverses[j])
    {
      var inverse := MakeInversePermutation(permutations[i]);
      inverses := inverses + [inverse];
    }
  }

  /** What the compressor relies on in a sketch: true of every valid one. */
  ghost predicate Compressible(lgK: nat, c: nat, window: seq<nat>, items: set<nat>) {
    var k, w, flavor := Pow2(lgK), DetermineCorrectOffset(lgK, c), DetermineFlavor(lgK, c);
    && MIN_LG_K <= lgK <= MAX_LG_K && w <= 56
    && (forall x | x in items :: x < 64 * k && x != EMPTY)
    && Roomy(|items|, 6 + lgK)
    && match flavor
       case EmptyFlavor => window == [] && items == {}
       case Sparse => window == [] && |items| == c > 0
       case Hybrid => IsWindow(window, k) && OutsideWindow(items, 0) && |MatrixCells(window) + items| == c > 0
       case Pinned => IsWindow(window, k) && OutsideWindow(items, 0) && 8 * |items| < 27 * k
       case Sliding => IsWindow(window, k) && OutsideWindow(items, w)
  }

  /** What comes of an attempt: a value, an exception, or undefined behaviour. */
  datatype Outcome<T> = Done(value: T) | Thrown | Undefined

  /** The exception "unexpected pseudo phase for sliding flavor", for which there is no permutation. */
  predicate Refused(lgK: nat, c: nat, items: set<nat>)
    requires lgK >= 4
  {
    DetermineFlavor(lgK, c) == Sliding && items != {} && DeterminePseudoPhase(lgK, c) >= 16
  }

  class CpcCompressor {
    // encoding_tables_for_high_entropy_byte and column_permutations_for_encoding
    const byteCodes: seq<seq<nat>>
    const permutations: seq<seq<nat>>
    const unaryDecoding: seq<nat>
    const byteDecodings: seq<seq<nat>>
    const inversePermutations: seq<seq<nat>>

    ghost predicate Valid() {
      && Decodes(unaryDecoding, UnaryCode())
      && |byteCodes| == |byteDecodings| == 22
      && (forall i | 0 <= i < 22 ::
            |byteCodes[i]| == 256 && IsPrefixCode(byteCodes[i]) && Decodes(byteDecodings[i], byteCodes[i]))
      && |permutations| == |inversePermutations| == 16
      && (forall i | 0 <= i < 16 :: |permutations[i]| == 56 && AreInverse(permutations[i], inversePermutations[i]))
    }

    constructor (byteCodes: seq<seq<nat>>, permutations: seq<seq<nat>>)
      requires |byteCodes| == 22
      requires forall i | 0 <= i < 22 :: |byteCodes[i]| == 256 && IsPrefixCode(byteCodes[i]) && IsComplete(byteCodes[i])
      requires |permutations| == 16 && forall i | 0 <= i < 16 :: |permutations[i]| == 56 && IsPermutation(permutations[i])
      ensures Valid() && this.byteCodes == byteCodes && this.permutations == permutations
    {
      hide IsPrefixCode, IsComplete, Decodes, IsCode, IsPermutation, AreInverse;
      UnaryIsPrefixCode();
      UnaryIsComplete();
      var unaryTable := MakeValidatedTable(UnaryCode());
      var byteTables := MakeDecodingTables(byteCodes);
      var inverses := MakeInversePermutations(permutations);
      this.byteCodes, this.permutations := byteCodes, permutations;
      unaryDecoding, byteDecodings, inversePermutations := unaryTable, byteTables, inverses;
    }

    /** What a sliding sketch does to the columns, if its phase has a permutation. */
    ghost function ColumnMap(phase: nat, offset: nat): nat -> nat
      requires Valid()
    {
      if phase < 16 then PermutedColumns(permutations[phase], offset) else Lowered
    }

    /** What the compressed state of a sketch holds, flavor by flavor. */
    ghost predicate Encodes(state: CompressedState, lgK: nat, c: nat, window: seq<nat>, items: set<nat>)
      requires Valid() && MIN_LG_K <= lgK
    {
      var phase, offset := DeterminePseudoPhase(lgK, c), DetermineCorrectOffset(lgK, c);
      match DetermineFlavor(lgK, c)
      case EmptyFlavor => state == NOTHING
      case Sparse => state.windowData == [] && EncodesSet(state, items, lgK) && state.tableNumEntries == c
      case Hybrid =>
        state.windowData == [] && EncodesSet(state, MatrixCells(window) + items, lgK) && state.tableNumEntries == c
      case Pinned =>
        EncodesWindow(state, window, byteCodes[phase]) && EncodesTable(state, Image(items, Lowered), lgK)
      case Sliding =>
        && (items != {} ==> phase < 16)
        && EncodesWindow(state, window, byteCodes[phase])
        && EncodesTable(state, Image(items, ColumnMap(phase, offset)), lgK)
    }

    /** The table of a sliding sketch whose code does not fit into table_data. */
    ghost predicate Overfull(lgK: nat, c: nat, items: set<nat>)
      requires Valid() && MIN_LG_K <= lgK
    {
      && DetermineFlavor(lgK, c) == Sliding && items != {}
      && SetOverruns(Image(items, ColumnMap(DeterminePseudoPhase(lgK, c), DetermineCorrectOffset(lgK, c))), lgK)
    }

    method CompressSparseFlavor(source: CpcSketch) returns (result: CompressedState)
      requires Valid() && source.Valid() && DetermineFlavor(source.lgK, source.numCoupons) == Sparse
      ensures Encodes(result, source.lgK, source.numCoupons, source.window, source.table.items)
      ensures result.tableData != []
    {
      hide CpcSketch.Valid, U32Table.Valid, Unwrapped, EncodesPairs, NoDuplicates, Increasing, Pow2,
           DetermineCorrectOffset, PairsOverrun;
      Storable(source);
      FewCoupons(source.lgK, source.numCoupons);
      var pairs := UnwrappingGetItems(source.table);
      SortPairs(pairs);
      ListFits(pairs[..], source.table.items, Pow2(source.lgK));
      FewPairsFit(pairs[..], source.lgK);
      var compressed := CompressSurprisingValues(pairs[..], source.lgK, NOTHING);
      result := compressed.value;
      EncodesList(result, pairs[..], source.table.items, source.lgK);
    }

    // the coupons of the window join those of the table in one list
    method CompressHybridFlavor(source: CpcSketch) returns (result: CompressedState)
      requires Valid() && source.Valid() && DetermineFlavor(source.lgK, source.numCoupons) == Hybrid
      ensures Encodes(result, source.lgK, source.numCoupons, source.window, source.table.items)
      ensures result.tableData != []
    {
      hide CpcSketch.Valid, U32Table.Valid, Unwrapped, EncodesPairs, NoDuplicates, Increasing, Pow2,
           DetermineCorrectOffset, IsWindow, OutsideWindow, MatrixCells, PairsOverrun;
      Storable(source);
      FewCoupons(source.lgK, source.numCoupons);
      ghost var cells, k := MatrixCells(source.window), Pow2(source.lgK);
      WindowColumns(source.window, k, source.table.items);
      var pairsFromTable := UnwrappingGetItems(source.table);
      var numPairsFromTable := pairsFromTable.Length;
      if numPairsFromTable > 0 {
        SortPairs(pairsFromTable);
      } else {
        NothingToSort(pairsFromTable[..], source.table.items);
      }
      var numPairsFromWindow := source.numCoupons - numPairsFromTable; // at offset 0 the table holds no missing coupons
      var allPairs := TrickyGetPairsFromWindow(source.window, numPairsFromWindow, numPairsFromTable);
      ghost var tail := allPairs[numPairsFromTable..];
      MergeOverlapping(pairsFromTable, allPairs);
      MergedList(pairsFromTable[..], source.table.items, tail, cells);
      ListFits(allPairs[..], cells + source.table.items, k);
      FewPairsFit(allPairs[..], source.lgK);
      var compressed := CompressSurprisingValues(allPairs[..], source.lgK, NOTHING);
      result := compressed.value;
      EncodesList(result, allPairs[..], cells + source.table.items, source.lgK);
    }

    method CompressPinnedFlavor(source: CpcSketch) returns (result: CompressedState)
      requires Valid() && source.Valid() && DetermineFlavor(source.lgK, source.numCoupons) == Pinned
      ensures Encodes(result, source.lgK, source.numCoupons, source.window, source.table.items)
      ensures result.windowData != []
    {
      hide CpcSketch.Valid, U32Table.Valid, Unwrapped, EncodesPairs, EncodesWindow, NoDuplicates, Pow2,
           DetermineCorrectOffset, IsWindow, OutsideWindow, IsPrefixCode, AreInverse, Decodes, Lowered, Raised,
           AreSymbols, SetOverruns;
      Storable(source);
      FewItems(source.lgK, |source.table.items|);
      ghost var items, k := source.table.items, Pow2(source.lgK);
      var phase := DeterminePseudoPhase(source.lgK, source.numCoupons);
      WindowBytes(source.window, k, byteCodes[phase]);
      result := CompressSlidingWindow(source.window, byteCodes[phase], NOTHING);
      ghost var state := result;
      var pairs := UnwrappingGetItems(source.table);
      if pairs.Length > 0 {
        RaisedLowered(items, k);
        assert forall i | 0 <= i < pairs.Length :: pairs[..][i] in Elements(pairs[..]) && Col(pairs[i]) >= 8; // no exception
        var compressed := CompressMappedPairs(pairs, source.lgK, Lowered, Raised, result);
        result := compressed.value;
      } else {
        NoImage(items, Lowered);
      }
      SameWindowData(state, result, source.window, byteCodes[phase]);
    }

    method CompressSlidingFlavor(source: CpcSketch) returns (result: Outcome<CompressedState>)
      requires Valid() && source.Valid() && DetermineFlavor(source.lgK, source.numCoupons) == Sliding
      ensures result.Thrown? <==> Refused(source.lgK, source.numCoupons, source.table.items)
      ensures result.Undefined? <==>
                !Refused(source.lgK, source.numCoupons, source.table.items)
                && Overfull(source.lgK, source.numCoupons, source.table.items)
      ensures result.Done? ==> Encodes(result.value, source.lgK, source.numCoupons, source.window, source.table.items)
      ensures result.Done? ==> result.value.windowData != []
      ensures result.Undefined? ==> 12 * |source.table.items| >= U32_SIZE
      ensures result.Done? ==> !AlwaysTooShort(source.lgK, |source.table.items|)
    {
      hide CpcSketch.Valid, U32Table.Valid, Unwrapped, EncodesPairs, EncodesWindow, NoDuplicates, Pow2,
           DetermineCorrectOffset, IsWindow, OutsideWindow, IsPrefixCode, AreInverse, Decodes, PermutedColumns,
           RestoredColumns, AreSymbols, DeterminePseudoPhase, SetOverruns, AlwaysTooShort;
      Storable(source);
      StateFollowsCount(source);
      ghost var items, k := source.table.items, Pow2(source.lgK);
      var phase: nat := DeterminePseudoPhase(source.lgK, source.numCoupons);
      WindowBytes(source.window, k, byteCodes[phase]);
      var state := CompressSlidingWindow(source.window, byteCodes[phase], NOTHING);
      var pairs := UnwrappingGetItems(source.table);
      if pairs.Length > 0 {
        if phase >= 16 {
          return Thrown;
        }
        var permutation, offset := permutations[phase], source.windowOffset;
        assert offset <= 56; // the exception "offset out of range" cannot be thrown
        RestoredPermuted(items, k, offset, permutation, inversePermutations[phase]);
        var compressed := CompressMappedPairs(pairs, source.lgK, PermutedColumns(permutation, offset),
                                              RestoredColumns(inversePermutations[phase], offset), state);
        if compressed.None? {
          return Undefined;
        }
        SameWindowData(state, compressed.value, source.window, byteCodes[phase]);
        state := compressed.value;
      } else {
        NoneTooShort(source.lgK);
        NoImage(items, ColumnMap(phase, source.windowOffset));
        SameWindowData(state, state, source.window, byteCodes[phase]);
      }
      result := Done(state);
    }

    /** Throws if the sketch is refused; otherwise its behaviour is undefined if the table is overfull. */
    method Compress(source: CpcSketch) returns (result: Outcome<CompressedState>)
      requires Valid() && source.Valid()
      ensures result.Thrown? <==> Refused(source.lgK, source.numCoupons, source.table.items)
      ensures result.Undefined? <==>
                !Refused(source.lgK, source.numCoupons, source.table.items)
                && Overfull(source.lgK, source.numCoupons, source.table.items)
      ensures result.Done? ==> Encodes(result.value, source.lgK, source.numCoupons, source.window, source.table.items)
      ensures result.Undefined? ==> 12 * |source.table.items| >= U32_SIZE
      ensures result.Done? && DetermineFlavor(source.lgK, source.numCoupons) == Sliding ==>
                !AlwaysTooShort(source.lgK, |source.table.items|)
    {
      hide CpcSketch.Valid, U32Table.Valid, Pow2, DetermineCorrectOffset, DetermineFlavor, DeterminePseudoPhase,
           SetOverruns, AlwaysTooShort;
      Storable(source);
      var state := NOTHING;
      match DetermineFlavor(source.lgK, source.numCoupons) {
        case EmptyFlavor =>
        case Sparse =>
          state := CompressSparseFlavor(source);
          assert |state.windowData| == 0 && |state.tableData| > 0; // no exception is thrown
        case Hybrid =>
          state := CompressHybridFlavor(source);
          assert |state.windowData| == 0 && |state.tableData| > 0;
        case Pinned =>
          state := CompressPinnedFlavor(source);
          assert |state.windowData| > 0;
        case Sliding =>
          result := CompressSlidingFlavor(source);
          assert result.Done? ==> |result.value.windowData| > 0;
          return;
      }
      result := Done(state);
    }

    method UncompressSparseFlavor(source: CompressedState, lgK: nat, ghost c: nat, ghost items: set<nat>)
      returns (table: U32Table, window: seq<nat>)
      requires Valid() && Compressible(lgK, c, [], items) && DetermineFlavor(lgK, c) == Sparse
      requires Encodes(source, lgK, c, [], items)
      ensures fresh(table) && table.Valid() && table.numValidBits == 6 + lgK && table.items == items && window == []
      ensures JustFits(|items|, table.lgSize, 2)
    {
      hide U32Table.Valid, JustFits, EncodesPairs, Increasing, Distinct, Pow2, DetermineCorrectOffset;
      window := [];
      ghost var pairs := PairsOf(source, items, lgK);
      assert |source.windowData| == 0 && |source.tableData| > 0; // no exception is thrown
      var pairArray := UncompressSurprisingValues(source, lgK, unaryDecoding, pairs);
      assert pairArray[..source.tableNumEntries] == pairArray[..];
      table := TableOfPairs(pairArray[..source.tableNumEntries], lgK, items);
    }

    // the pairs are those of the table and of the window
    method UncompressHybridFlavor(source: CompressedState, lgK: nat, ghost c: nat, ghost window: seq<nat>, ghost items: set<nat>)
      returns (table: U32Table, window': seq<nat>)
      requires Valid() && Compressible(lgK, c, window, items) && DetermineFlavor(lgK, c) == Hybrid
      requires Encodes(source, lgK, c, window, items)
      ensures fresh(table) && table.Valid() && table.numValidBits == 6 + lgK && table.items == items && window' == window
      ensures JustFits(|items|, table.lgSize, 2)
    {
      hide U32Table.Valid, JustFits, EncodesPairs, Increasing, Distinct, Pow2, DetermineCorrectOffset, MatrixCells,
           IsWindow, OutsideWindow, SplitUpTo;
      ghost var pairs := PairsOf(source, MatrixCells(window) + items, lgK);
      assert |source.windowData| == 0 && |source.tableData| > 0; // no exception is thrown
      var pairArray := UncompressSurprisingValues(source, lgK, unaryDecoding, pairs);
      WindowCellsFit(window, Pow2(lgK));
      ListFits(pairs, MatrixCells(window) + items, Pow2(lgK));
      NoEmptyMarker(pairs, MatrixCells(window) + items);
      var nextTruePair;
      window', nextTruePair := SplitPairs(pairArray, Pow2(lgK));
      SplitAll(pairs, pairArray[..nextTruePair], window', Pow2(lgK), window, items);
      table := TableOfPairs(pairArray[..nextTruePair], lgK, items);
    }

    method UncompressPinnedFlavor(source: CompressedState, lgK: nat, c: nat, ghost window: seq<nat>, ghost items: set<nat>)
      returns (table: U32Table, window': seq<nat>)
      requires Valid() && Compressible(lgK, c, window, items) && DetermineFlavor(lgK, c) == Pinned
      requires Encodes(source, lgK, c, window, items)
      ensures fresh(table) && table.Valid() && table.numValidBits == 6 + lgK && table.items == items && window' == window
      ensures JustFits(|items|, table.lgSize, 2)
    {
      hide U32Table.Valid, JustFits, EncodesSet, EncodesWindow, Pow2, DetermineCorrectOffset, MatrixCells,
           OutsideWindow, IsPrefixCode, AreInverse, Decodes, Lowered, Raised, Image;
      assert |source.windowData| > 0 by { // no exception is thrown
        SameWindowData(source, source, window, byteCodes[DeterminePseudoPhase(lgK, c)]);
      }
      var phase := DeterminePseudoPhase(lgK, c);
      window' := UncompressSlidingWindow(source, Pow2(lgK), byteDecodings[phase], byteCodes[phase], window);
      var numPairs := source.tableNumEntries;
      RaisedLowered(items, Pow2(lgK));
      TableCount(source, items, Lowered, lgK);
      if numPairs == 0 {
        table := new U32Table(2, 6 + lgK);
      } else {
        table := UncompressMappedPairs(source, lgK, Lowered, Raised, items);
      }
    }

    method UncompressSlidingFlavor(source: CompressedState, lgK: nat, c: nat, ghost window: seq<nat>, ghost items: set<nat>)
      returns (table: U32Table, window': seq<nat>)
      requires Valid() && Compressible(lgK, c, window, items) && DetermineFlavor(lgK, c) == Sliding
      requires Encodes(source, lgK, c, window, items)
      ensures fresh(table) && table.Valid() && table.numValidBits == 6 + lgK && table.items == items && window' == window
      ensures JustFits(|items|, table.lgSize, 2)
    {
      hide U32Table.Valid, JustFits, EncodesSet, EncodesWindow, Pow2, DetermineCorrectOffset, MatrixCells,
           OutsideWindow, IsPrefixCode, AreInverse, Decodes, PermutedColumns, RestoredColumns, Image;
      assert |source.windowData| > 0 by { // no exception is thrown
        SameWindowData(source, source, window, byteCodes[DeterminePseudoPhase(lgK, c)]);
      }
      var phase, offset := DeterminePseudoPhase(lgK, c), DetermineCorrectOffset(lgK, c);
      window' := UncompressSlidingWindow(source, Pow2(lgK), byteDecodings[phase], byteCodes[phase], window);
      var numPairs := source.tableNumEntries;
      TableCount(source, items, ColumnMap(phase, offset), lgK);
      if numPairs == 0 {
        table := new U32Table(2, 6 + lgK);
      } else {
        assert phase < 16; // no exception is thrown
        RestoredPermuted(items, Pow2(lgK), offset, permutations[phase], inversePermutations[phase]);
        table := UncompressMappedPairs(source, lgK, PermutedColumns(permutations[phase], offset),
                                       RestoredColumns(inversePermutations[phase], offset), items);
      }
    }

    method Uncompress(source: CompressedState, lgK: nat, c: nat, ghost window: seq<nat>, ghost items: set<nat>)
      returns (table: U32Table, window': seq<nat>)
      requires Valid() && Compressible(lgK, c, window, items) && Encodes(source, lgK, c, window, items)
      ensures fresh(table) && table.Valid() && table.numValidBits == 6 + lgK && table.items == items && window' == window
      ensures JustFits(|items|, table.lgSize, 2)
    {
      hide U32Table.Valid, JustFits, Pow2, DetermineCorrectOffset, DetermineFlavor, MatrixCells, EncodesSet,
           EncodesWindow, IsWindow;
      match DetermineFlavor(lgK, c)
      case EmptyFlavor =>
        table := new U32Table(2, 6 + lgK);
        window' := [];
      case Sparse =>
        table, window' := UncompressSparseFlavor(source, lgK, c, items);
      case Hybrid =>
        table, window' := UncompressHybridFlavor(source, lgK, c, window, items);
      case Pinned =>
        table, window' := UncompressPinnedFlavor(source, lgK, c, window, items);
      case Sliding =>
        table, window' := UncompressSlidingFlavor(source, lgK, c, window, items);
    }

    /** Undoes the transformation of the columns. */
    method UncompressMappedPairs(source: CompressedState, lgK: nat, ghost f: nat -> nat, g: nat -> nat, ghost items: set<nat>)
      returns (table: U32Table)
      requires Valid() && lgK <= MAX_LG_K && source.tableNumEntries > 0
      requires Undoes(g, f, items) && EncodesTable(source, Image(items, f), lgK)
      requires forall x | x in Image(items, f) :: Col(x) < 56
      requires Roomy(|items|, 6 + lgK)
      requires forall x | x in items :: x < 64 * Pow2(lgK) && x != EMPTY
      ensures fresh(table) && table.Valid() && table.numValidBits == 6 + lgK && table.items == items
      ensures JustFits(|items|, table.lgSize, 2)
    {
      hide U32Table.Valid, JustFits, EncodesPairs, Increasing, Distinct, Pow2, Undoes, Image, Elements, NoDuplicates;
      ghost var pairs := PairsOf(source, Image(items, f), lgK);
      var pairArray := UncompressSurprisingValues(source, lgK, unaryDecoding, pairs);
      ColumnsInRange(pairs, Image(items, f));
      assert forall i | 0 <= i < pairArray.Length :: Col(pairArray[..][i]) < 56; // no exception is thrown
      MapPairs(pairArray, g);
      UndoneImage(items, f, g);
      IncreasingIsDistinct(pairs);
      MappedPairs(pairs, pairArray[..], g, f);
      assert Elements(pairArray[..]) == items;
      assert pairArray[..source.tableNumEntries] == pairArray[..];
      table := TableOfDistinctPairs(pairArray[..source.tableNumEntries], lgK, items);
    }

    /** Transforms the columns, which changes the order of the pairs, so before sorting. */
    method CompressMappedPairs(pairs: array<nat>, lgK: nat, f: nat -> nat, ghost g: nat -> nat, state: CompressedState)
      returns (result: Option<CompressedState>)
      requires lgK <= MAX_LG_K && pairs.Length > 0 && NoDuplicates(pairs[..])
      requires Undoes(g, f, Elements(pairs[..])) && forall x | x in Image(Elements(pairs[..]), f) :: x < 64 * Pow2(lgK)
      modifies pairs
      ensures result.None? <==> SetOverruns(Image(Elements(old(pairs[..])), f), lgK)
      ensures result.None? ==> 12 * pairs.Length >= U32_SIZE
      ensures result.Some? ==> !AlwaysTooShort(lgK, pairs.Length)
      ensures result.Some? ==> EncodesTable(result.value, Image(Elements(old(pairs[..])), f), lgK)
      ensures result.Some? ==>
                result.value.windowData == state.windowData && result.value.windowDataWords == state.windowDataWords
    {
      hide EncodesPairs, NoDuplicates, Pow2, Undoes, Image, Elements, PairsOverrun, SetOverruns, AlwaysTooShort;
      ghost var before := pairs[..];
      MapPairs(pairs, f);
      MappedPairs(before, pairs[..], f, g);
      ghost var image := Elements(pairs[..]);
      SortPairs(pairs);
      ListFits(pairs[..], image, Pow2(lgK));
      OverrunOfList(pairs[..], image, lgK);
      OverrunByCount(pairs[..], lgK);
      result := CompressSurprisingValues(pairs[..], lgK, state);
      if result.Some? {
        EncodesList(result.value, pairs[..], image, lgK);
        NonemptyTable(result.value, pairs[..], image, lgK);
      }
    }
  }

  /** So many pairs that the product of 12 and their number wraps around to a small number. */
  ghost predicate AlwaysTooShort(lgK: nat, n: nat) {
    Pow2(lgK) < n && Low32(12 * n) + Pow2(lgK) + 31 < n
  }

  lemma NoneTooShort(lgK: nat)
    ensures !AlwaysTooShort(lgK, 0)
  {
  }

  /** What the number of pairs alone says about overruns. */
  lemma OverrunByCount(pairs: seq<nat>, lgK: nat)
    requires Increasing(pairs) && lgK <= MAX_LG_K && forall i | 0 <= i < |pairs| :: pairs[i] < 64 * Pow2(lgK)
    ensures 12 * |pairs| < U32_SIZE ==> !PairsOverrun(pairs, lgK)
    ensures AlwaysTooShort(lgK, |pairs|) ==> PairsOverrun(pairs, lgK)
  {
    if 12 * |pairs| < U32_SIZE {
      FewPairsFit(pairs, lgK);
    }
    if AlwaysTooShort(lgK, |pairs|) {
      TooManyPairs(pairs, lgK);
    }
  }

  lemma TooManyPairs(pairs: seq<nat>, lgK: nat)
    requires Increasing(pairs) && AlwaysTooShort(lgK, |pairs|)
    ensures PairsOverrun(pairs, lgK)
  {
    hide IsCode, IsPrefixCode, EncodePairs, Overruns, Pow2, Low32;
    UnaryIsPrefixCode();
    PrefixCodeIsCode(UnaryCode());
    DivUnique(Pow2(lgK), |pairs|, 0, Pow2(lgK));
    assert GolombBaseBits(Pow2(lgK), |pairs|) == 0;
    AlwaysOverrun(pairs, 0, UnaryCode(), Pow2(lgK));
  }

  /** Sketches that are not sliding have few enough coupons, and items, for any lgK. */
  lemma FewCoupons(lgK: nat, c: nat)
    requires lgK <= MAX_LG_K && 2 * c < Pow2(lgK)
    ensures 12 * c < U32_SIZE
  {
    Pow2Mono(lgK, MAX_LG_K);
    LargePowers();
    hide Pow2;
  }

  lemma FewItems(lgK: nat, n: nat)
    requires lgK <= MAX_LG_K && 8 * n < 27 * Pow2(lgK)
    ensures 12 * n < U32_SIZE
  {
    Pow2Mono(lgK, MAX_LG_K);
    LargePowers();
    hide Pow2;
  }

  /** Up to lgK = 22 no table is overfull. */
  lemma SmallTablesFit(lgK: nat, n: nat)
    requires lgK <= 22 && Roomy(n, 6 + lgK)
    ensures 12 * n < U32_SIZE
  {
    Pow2Mono(lgK, 22);
    LargePowers();
    CellCount(lgK);
    hide Pow2;
  }

  /** The list that the state encodes. */
  lemma PairsOf(state: CompressedState, s: set<nat>, lgK: nat) returns (pairs: seq<nat>)
    requires EncodesSet(state, s, lgK)
    ensures ListOf(pairs, s) && EncodesPairs(state, pairs, lgK)
    ensures |pairs| == state.tableNumEntries > 0 && state.tableData != []
  {
    pairs :| ListOf(pairs, s) && EncodesPairs(state, pairs, lgK);
    var b := GolombBaseBits(Pow2(lgK), |pairs|);
    SomePairs(pairs, b, state.tableData[..state.tableDataWords]);
  }

  lemma TableCount(state: CompressedState, items: set<nat>, f: nat -> nat, lgK: nat)
    requires EncodesTable(state, Image(items, f), lgK)
    ensures state.tableNumEntries == 0 <==> items == {}
    ensures state.tableNumEntries > 0 ==> EncodesSet(state, Image(items, f), lgK)
  {
    if items != {} {
      var x :| x in items;
      assert f(x) in Image(items, f);
      var pairs := PairsOf(state, Image(items, f), lgK);
    }
  }

  lemma ColumnsInRange(pairs: seq<nat>, s: set<nat>)
    requires Elements(pairs) == s && forall x | x in s :: Col(x) < 56
    ensures forall i | 0 <= i < |pairs| :: Col(pairs[i]) < 56
  {
    forall i | 0 <= i < |pairs| ensures Col(pairs[i]) < 56 {
      assert pairs[i] in Elements(pairs);
    }
  }

  lemma IncreasingIsDistinct(pairs: seq<nat>)
    requires Increasing(pairs)
    ensures NoDuplicates(pairs)
  {
  }

  lemma WindowCellsFit(window: seq<nat>, k: nat)
    requires IsWindow(window, k)
    ensures forall x | x in MatrixCells(window) :: x < 64 * k && x != EMPTY
  {
    forall x | x in MatrixCells(window) ensures Col(x) < 8 {
      ByteBits(window[Row(x)], Col(x));
    }
  }

  lemma NoEmptyMarker(pairs: seq<nat>, s: set<nat>)
    requires ListOf(pairs, s) && EMPTY !in s
    ensures EMPTY !in pairs
  {
    assert EMPTY in pairs ==> EMPTY in Elements(pairs);
  }

  method TableOfPairs(pairs: seq<nat>, lgK: nat, ghost items: set<nat>) returns (table: U32Table)
    requires ListOf(pairs, items) && lgK <= MAX_LG_K
    requires Roomy(|items|, 6 + lgK)
    requires forall x | x in items :: x < 64 * Pow2(lgK) && x != EMPTY
    ensures fresh(table) && table.Valid() && table.numValidBits == 6 + lgK && table.items == items
    ensures JustFits(|items|, table.lgSize, 2)
  {
    hide U32Table.Valid, Pow2, Increasing, NoDuplicates, Elements;
    IncreasingIsDistinct(pairs);
    table := TableOfDistinctPairs(pairs, lgK, items);
  }

  method TableOfDistinctPairs(pairs: seq<nat>, lgK: nat, ghost items: set<nat>) returns (table: U32Table)
    requires NoDuplicates(pairs) && Elements(pairs) == items && lgK <= MAX_LG_K
    requires Roomy(|items|, 6 + lgK)
    requires forall x | x in items :: x < 64 * Pow2(lgK) && x != EMPTY
    ensures fresh(table) && table.Valid() && table.numValidBits == 6 + lgK && table.items == items
    ensures JustFits(|items|, table.lgSize, 2)
  {
    hide U32Table.Valid, Pow2, JustFits;
    CellCount(lgK);
    DistinctCount(pairs);
    forall x | x in pairs ensures x in items {
      assert x in Elements(pairs);
    }
    table := U32Table.MakeFromPairs(pairs, lgK);
  }

  /** The mid-range phases and where they end: at 3/4, 11/10, 132/100, 5/3, 1965/1000 and 2275/1000
      coupons per row. From 2375/1000 on the phase cycles through 16 values, one for each K/16 coupons. */
  lemma PhaseByCount(lgK: nat, c: nat)
    requires MIN_LG_K <= lgK <= 20 && 1000 * c < U32_SIZE
    ensures var k, phase := Pow2(lgK), DeterminePseudoPhase(lgK, c);
            && (phase == 16 <==> 4 * c < 3 * k)
            && (phase == 17 <==> 3 * k <= 4 * c && 10 * c < 11 * k)
            && (phase == 18 <==> 11 * k <= 10 * c && 100 * c < 132 * k)
            && (phase == 19 <==> 132 * k <= 100 * c && 3 * c < 5 * k)
            && (phase == 20 <==> 5 * k <= 3 * c && 1000 * c < 1965 * k)
            && (phase == 21 <==> 1965 * k <= 1000 * c && 1000 * c < 2275 * k)
            && (2275 * k <= 1000 * c < 2375 * k ==> phase == 6)
            && (2375 * k <= 1000 * c ==> phase == (c / Pow2(lgK - 4)) % 16)
  {
    Pow2Mono(lgK, 20);
    LargePowers();
    ShrIsDiv(c, lgK - 4);
    hide Pow2, Shr, Low32;
    ProductsDoNotWrap(c, Pow2(lgK));
  }

  lemma ProductsDoNotWrap(c: nat, k: nat)
    requires 1000 * c < U32_SIZE && k <= 0x10_0000
    ensures Low32(1000 * c) == 1000 * c && Low32(2375 * k) == 2375 * k && Low32(4 * c) == 4 * c && Low32(3 * k) == 3 * k
    ensures Low32(10 * c) == 10 * c && Low32(11 * k) == 11 * k && Low32(100 * c) == 100 * c && Low32(132 * k) == 132 * k
    ensures Low32(3 * c) == 3 * c && Low32(5 * k) == 5 * k && Low32(1965 * k) == 1965 * k && Low32(2275 * k) == 2275 * k
  {
  }

  /** Up to lg_k = 16 no count of a sketch makes a product wrap around. */
  lemma CountsFit(lgK: nat, c: nat)
    requires lgK <= 16 && 8 * c < 475 * Pow2(lgK)
    ensures 1000 * c < U32_SIZE
  {
    Pow2Mono(lgK, 16);
    Pow16();
    hide Pow2;
  }

  /** So no sliding sketch is then refused. */
  lemma SlidingPhase(lgK: nat, c: nat)
    requires MIN_LG_K <= lgK <= 16 && DetermineFlavor(lgK, c) == Sliding && 8 * c < 475 * Pow2(lgK)
    ensures DeterminePseudoPhase(lgK, c) == (c / Pow2(lgK - 4)) % 16
  {
    CountsFit(lgK, c);
    PhaseByCount(lgK, c);
    hide Pow2, DeterminePseudoPhase;
  }

  lemma Pow16()
    ensures Pow2(16) == 0x1_0000
  {
    assert Pow2(8) == 256;
    Pow2Add(8, 8);
  }

  lemma NonemptyTable(state: CompressedState, pairs: seq<nat>, s: set<nat>, lgK: nat)
    requires pairs != [] && |pairs| == |s| && EncodesSet(state, s, lgK)
    ensures EncodesTable(state, s, lgK)
  {
  }

  lemma SameWindowData(state: CompressedState, state': CompressedState, window: seq<nat>, code: seq<nat>)
    requires EncodesWindow(state, window, code)
    requires state'.windowData == state.windowData && state'.windowDataWords == state.windowDataWords
    ensures EncodesWindow(state', window, code) && state'.windowData != []
  {
  }

  lemma WindowBytes(window: seq<nat>, k: nat, code: seq<nat>)
    requires IsWindow(window, k) && |code| == 256
    ensures AreSymbols(window, code)
  {
  }

  lemma NoImage(items: set<nat>, f: nat -> nat)
    requires |items| == 0
    ensures Image(items, f) == {}
  {
  }

  lemma NothingToSort(pairs: seq<nat>, items: set<nat>)
    requires Elements(pairs) == items && pairs == []
    ensures ListOf(pairs, items)
  {
  }

  lemma MergedList(a: seq<nat>, s: set<nat>, b: seq<nat>, t: set<nat>)
    requires ListOf(a, s) && ListOf(b, t) && s !! t
    ensures ListOf(Merged(a, b), t + s)
  {
    MergedKeeps(a, b);
    MergedIncreases(a, b);
  }

  lemma ListFits(pairs: seq<nat>, s: set<nat>, k: nat)
    requires ListOf(pairs, s) && forall x | x in s :: x < 64 * k
    ensures |pairs| == |s| && Increasing(pairs) && forall i | 0 <= i < |pairs| :: pairs[i] < 64 * k
  {
    IncreasingCount(pairs);
    forall i | 0 <= i < |pairs| ensures pairs[i] < 64 * k {
      assert pairs[i] in Elements(pairs);
    }
  }

  lemma EncodesList(state: CompressedState, pairs: seq<nat>, s: set<nat>, lgK: nat)
    requires ListOf(pairs, s) && EncodesPairs(state, pairs, lgK)
    ensures EncodesSet(state, s, lgK) && state.tableNumEntries == |s|
  {
    IncreasingCount(pairs);
  }

  lemma UnshiftedWindow(window: seq<nat>)
    ensures Shifted(window, 0) == window
  {
  }

  lemma DisjointSize(a: set<nat>, b: set<nat>)
    requires a !! b
    ensures |a + b| == |a| + |b|
  {
  }

  lemma HybridParts(s: set<nat>, lgK: nat, window: seq<nat>, items: set<nat>, fic: nat)
    requires Describes(s, lgK, 0, window, items, fic) && window != []
    ensures s == MatrixCells(window) + items && |s| == |MatrixCells(window)| + |items|
  {
    hide Represents, Pow2, IsWindow, OutsideWindow, MatrixCells;
    WindowAndTable(s, lgK, window, items, fic);
    UnshiftedWindow(window);
    WindowColumns(window, Pow2(lgK), items);
    DisjointSize(MatrixCells(window), items);
  }

  lemma WindowedIsCompressible(s: set<nat>, lgK: nat, w: nat, window: seq<nat>, items: set<nat>, fic: nat)
    requires MIN_LG_K <= lgK <= MAX_LG_K && Describes(s, lgK, w, window, items, fic) && window != []
    requires w == DetermineCorrectOffset(lgK, |s|)
    requires Roomy(|items|, 6 + lgK) && forall x | x in items :: x != EMPTY
    requires DetermineFlavor(lgK, |s|) in {Hybrid, Pinned, Sliding}
    requires w > 0 <==> DetermineFlavor(lgK, |s|) == Sliding
    ensures Compressible(lgK, |s|, window, items)
    ensures DetermineFlavor(lgK, |s|) == Hybrid ==>
              |s| == |MatrixCells(window)| + |items| && forall x | x in MatrixCells(window) :: x < 64 * Pow2(lgK)
  {
    assert DetermineFlavor(lgK, |s|) == Hybrid ==> |s| > 0;
    RepresentedItems(s, lgK, w, window, items, fic);
    hide Pow2, Represents, IsWindow, OutsideWindow, MatrixCells, DetermineCorrectOffset, DetermineFlavor;
    if w == 0 {
      HybridParts(s, lgK, window, items, fic);
    }
    hide Describes;
  }

  lemma RepresentedItems(s: set<nat>, lgK: nat, w: nat, window: seq<nat>, items: set<nat>, fic: nat)
    requires Describes(s, lgK, w, window, items, fic)
    ensures forall x | x in items :: x < 64 * Pow2(lgK)
    ensures forall x | x in s :: x < 64 * Pow2(lgK)
  {
    hide Pow2;
  }

  lemma Storable(sketch: CpcSketch)
    requires sketch.Valid()
    ensures sketch.table.Valid() && sketch.table.numValidBits > 0
    ensures Compressible(sketch.lgK, sketch.numCoupons, sketch.window, sketch.table.items)
    ensures DetermineFlavor(sketch.lgK, sketch.numCoupons) == Hybrid ==>
      && sketch.numCoupons == |MatrixCells(sketch.window)| + |sketch.table.items|
      && forall x | x in MatrixCells(sketch.window) :: x < 64 * Pow2(sketch.lgK)
  {
    hide U32Table.Valid, Describes, InPlace, Pow2, DetermineCorrectOffset;
    StateFollowsCount(sketch);
    RoomyTable(sketch.table);
    var flavor := DetermineFlavor(sketch.lgK, sketch.numCoupons);
    if flavor in {EmptyFlavor, Sparse} {
      SparseIsCompressible(sketch);
    } else {
      WindowedIsCompressible(sketch.coupons, sketch.lgK, sketch.windowOffset, sketch.window, sketch.table.items,
                             sketch.firstInterestingColumn);
    }
  }

  lemma SparseIsCompressible(sketch: CpcSketch)
    requires sketch.Valid() && sketch.window == []
    requires DetermineFlavor(sketch.lgK, sketch.numCoupons) in {EmptyFlavor, Sparse}
    requires Roomy(|sketch.table.items|, 6 + sketch.lgK)
    requires forall x | x in sketch.table.items :: x != EMPTY
    ensures Compressible(sketch.lgK, sketch.numCoupons, sketch.window, sketch.table.items)
  {
    hide U32Table.Valid, InPlace, Pow2, DetermineCorrectOffset;
    StateFollowsCount(sketch);
    SparseItems(sketch);
    RepresentedItems(sketch.coupons, sketch.lgK, sketch.windowOffset, sketch.window, sketch.table.items,
                     sketch.firstInterestingColumn);
  }

  // ----- there and back -----

  /** The parts from which the sketch can be put together again. */
  lemma PartsOf(sketch: CpcSketch, table: U32Table)
    requires sketch.Valid() && table.Valid() && table.numValidBits == 6 + sketch.lgK && table.items == sketch.table.items
    ensures MIN_LG_K <= sketch.lgK <= MAX_LG_K && sketch.numCoupons == |sketch.coupons|
    ensures var w := DetermineCorrectOffset(sketch.lgK, sketch.numCoupons);
            && w == sketch.windowOffset
            && Describes(sketch.coupons, sketch.lgK, w, sketch.window, table.items, sketch.firstInterestingColumn)
            && InPlace(sketch.lgK, sketch.numCoupons, w, sketch.window != [])
  {
    hide U32Table.Valid, Describes, InPlace, DetermineCorrectOffset;
    StateFollowsCount(sketch);
  }

  /** Compressing a sketch of any flavor and uncompressing the result, given only the compressed
      state and the parameters of the preamble, gives back the window, the table and all coupons,
      unless the compressor refuses the sketch. */
  method CompressAndUncompress(compressor: CpcCompressor, sketch: CpcSketch) returns (result: Outcome<CpcSketch>)
    requires compressor.Valid() && sketch.Valid()
    ensures result.Thrown? <==> Refused(sketch.lgK, sketch.numCoupons, sketch.table.items)
    ensures result.Undefined? <==>
              !Refused(sketch.lgK, sketch.numCoupons, sketch.table.items)
              && compressor.Overfull(sketch.lgK, sketch.numCoupons, sketch.table.items)
    ensures result.Undefined? ==> 12 * |sketch.table.items| >= U32_SIZE && sketch.lgK >= 23
    ensures result.Done? ==>
              var copy := result.value;
              && fresh(copy) && copy.Valid() && copy.lgK == sketch.lgK
              && copy.coupons == sketch.coupons && copy.numCoupons == sketch.numCoupons
              && copy.window == sketch.window && copy.windowOffset == sketch.windowOffset
              && copy.table.items == sketch.table.items && copy.firstInterestingColumn == sketch.firstInterestingColumn
              && JustFits(|copy.table.items|, copy.table.lgSize, 2)
  {
    hide CpcSketch.Valid, U32Table.Valid, CpcCompressor.Valid, CpcCompressor.Encodes, Compressible, Describes, InPlace,
         DetermineCorrectOffset, Refused, CpcCompressor.Overfull, JustFits;
    Storable(sketch);
    SizeRange(sketch);
    var compressed := compressor.Compress(sketch);
    if compressed.Thrown? {
      return Thrown;
    }
    if compressed.Undefined? {
      return Undefined;
    }
    var table, window :=
      compressor.Uncompress(compressed.value, sketch.lgK, sketch.numCoupons, sketch.window, sketch.table.items);
    PartsOf(sketch, table);
    var copy := new CpcSketch.FromParts(sketch.lgK, sketch.numCoupons, sketch.firstInterestingColumn, table, window,
                                        sketch.coupons);
    result := Done(copy);
  }

  lemma SizeRange(sketch: CpcSketch)
    requires sketch.Valid()
    ensures sketch.lgK >= MIN_LG_K
    ensures sketch.lgK <= 22 ==> 12 * |sketch.table.items| < U32_SIZE
  {
    RoomyTable(sketch.table);
    hide U32Table.Valid, Describes, InPlace, Roomy;
    if sketch.lgK <= 22 {
      SmallTablesFit(sketch.lgK, |sketch.table.items|);
    }
  }
}
