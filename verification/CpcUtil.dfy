/** Bit counting and logarithms of 64-bit words (cpc/include/cpc_util.hpp). */
module CpcUtil {
  import opened Words

  datatype Option<+T> = None | Some(value: T)

  function PopCount(w: nat): nat {
    if w == 0 then 0 else w % 2 + PopCount(w / 2)
  }

  function PopCountOf(words: seq<nat>): nat {
    if words == [] then 0 else PopCountOf(words[..|words| - 1]) + PopCount(words[|words| - 1])
  }

  lemma PopCountHalf(w: nat)
    ensures PopCount(w) == w % 2 + PopCount(w / 2)
  {
  }

  lemma BitwiseHalf(op: Op, x: nat, y: nat)
    ensures Bitwise(op, x, y) == (if Gate(op, x % 2 == 1, y % 2 == 1) then 1 else 0) + 2 * Bitwise(op, x / 2, y / 2)
  {
  }

  lemma BitwiseCount(op: Op, x: nat, y: nat)
    ensures PopCount(Bitwise(op, x, y))
            == PopCount(Bitwise(op, x / 2, y / 2)) + if Gate(op, x % 2 == 1, y % 2 == 1) then 1 else 0
  {
    BitwiseHalf(op, x, y);
    PopCountHalf(Bitwise(op, x, y));
  }

  // ----- floor_log2_of_long -----

  /** None stands for the exception on 0. For x above Pow2(63) the source's y <<= 1 drops its only
      bit and the loop never ends. */
  method FloorLog2OfLong(x: nat) returns (r: Option<nat>)
    requires x <= Pow2(63)
    ensures r.None? <==> x == 0
    ensures r.Some? ==> Pow2(r.value) <= x < Pow2(r.value + 1)
  {
    if x < 1 {
      return None;
    }
    var p := 0;
    var y := 1;
    while true
      invariant y == Pow2(p) && (p > 0 ==> Pow2(p - 1) < x) && 0 <= p <= 63
      decreases 63 - p
    {
      if y == x {
        return Some(p);
      }
      if y > x {
        return Some(p - 1);
      }
      if p == 63 {
        assert false;
      }
      p := p + 1;
      y := 2 * y;
    }
  }

  // ----- Wegner's count -----

  lemma {:induction false} AndSelf(w: nat)
    ensures Bitwise(And, w, w) == w
  {
    if w > 0 {
      AndSelf(w / 2);
    }
  }

  lemma {:induction false} ClearLowest(w: nat)
    requires w > 0
    ensures Bitwise(And, w, w - 1) < w
    ensures PopCount(Bitwise(And, w, w - 1)) == PopCount(w) - 1
  {
    hide Bitwise, PopCount;
    BitwiseCount(And, w, w - 1);
    BitwiseHalf(And, w, w - 1);
    PopCountHalf(w);
    if w % 2 == 1 {
      AndSelf(w / 2);
    } else {
      ClearLowest(w / 2);
    }
  }

  method WegnerCountBitsSetInMatrix(words: seq<nat>) returns (count: nat)
    ensures count == PopCountOf(words)
  {
    count := 0;
    for i := 0 to |words|
      invariant count == PopCountOf(words[..i])
    {
      var pattern := words[i];
      while pattern != 0
        invariant count + PopCount(pattern) == PopCountOf(words[..i]) + PopCount(words[i])
        decreases pattern
      {
        ClearLowest(pattern);
        pattern := Bitwise(And, pattern, pattern - 1);
        count := count + 1;
      }
      assert words[..i + 1][..i] == words[..i];
    }
    assert words[..|words|] == words;
  }

  // ----- Warren's count -----

  /** The numbers whose base-4, base-16 and base-256 digits are the bit counts of those digits of w. */
  function Packed4(w: nat): nat {
    if w == 0 then 0 else PopCount(w % 4) + 4 * Packed4(w / 4)
  }

  function Packed16(w: nat): nat {
    if w == 0 then 0 else PopCount(w % 16) + 16 * Packed16(w / 16)
  }

  function Packed256(w: nat): nat {
    if w == 0 then 0 else PopCount(w % 256) + 256 * Packed256(w / 256)
  }

  /** Masks: the same digit n times in bases 4, 16 and 256. */
  function Fives(n: nat): nat {
    if n == 0 then 0 else 1 + 4 * Fives(n - 1)
  }

  function Threes(n: nat): nat {
    if n == 0 then 0 else 3 + 16 * Threes(n - 1)
  }

  function Fifteens(n: nat): nat {
    if n == 0 then 0 else 15 + 256 * Fifteens(n - 1)
  }

  function Step2(i: nat): nat {
    AndShrinks(i / 2, 0x5555_5555_5555_5555);
    i - Bitwise(And, i / 2, 0x5555_5555_5555_5555)
  }

  lemma {:induction false} AndShrinks(x: nat, y: nat)
    ensures Bitwise(And, x, y) <= x
    decreases x + y
  {
    if x != 0 || y != 0 {
      AndShrinks(x / 2, y / 2);
    }
  }

  function Step4(i: nat): nat {
    Bitwise(And, i, 0x3333_3333_3333_3333) + Bitwise(And, i / 4, 0x3333_3333_3333_3333)
  }

  function Step8(i: nat): nat {
    Bitwise(And, i + i / 16, 0x0f0f_0f0f_0f0f_0f0f)
  }

  function FoldBytes(i: nat): nat {
    FoldPairs(i + i / 0x100)
  }

  function FoldPairs(i1: nat): nat {
    var i2 := i1 + i1 / 0x1_0000;
    var i3 := i2 + i2 / 0x1_0000_0000;
    i3 % 0x80
  }

  function WarrenBitCount(i: nat): nat {
    FoldBytes(Step8(Step4(Step2(i))))
  }

  lemma AndBase4(x: nat, y: nat)
    ensures Bitwise(And, x, y) == Bitwise(And, x % 4, y % 4) + 4 * Bitwise(And, x / 4, y / 4)
  {
    BitwiseHalf(And, x, y);
    BitwiseHalf(And, x / 2, y / 2);
    BitwiseHalf(And, x % 4, y % 4);
    BitwiseHalf(And, x % 4 / 2, y % 4 / 2);
    assert x / 2 / 2 == x / 4 && y / 2 / 2 == y / 4;
    assert Bitwise(And, 0, 0) == 0;
  }

  lemma AndBase16(x: nat, y: nat)
    ensures Bitwise(And, x, y) == Bitwise(And, x % 16, y % 16) + 16 * Bitwise(And, x / 16, y / 16)
  {
    AndBase4(x, y);
    AndBase4(x / 4, y / 4);
    AndBase4(x % 16, y % 16);
    hide Bitwise;
    Digits4(x);
    Digits4(y);
  }

  lemma AndBase256(x: nat, y: nat)
    ensures Bitwise(And, x, y) == Bitwise(And, x % 256, y % 256) + 256 * Bitwise(And, x / 256, y / 256)
  {
    AndBase16(x, y);
    AndBase16(x / 16, y / 16);
    AndBase16(x % 256, y % 256);
    hide Bitwise;
    Digits16(x);
    Digits16(y);
  }

  lemma Digits4(x: nat)
    ensures x / 4 / 4 == x / 16 && x % 16 % 4 == x % 4 && x % 16 / 4 == x / 4 % 4
    ensures x % 16 == x % 4 + 4 * (x / 4 % 4)
  {
  }

  lemma Digits16(x: nat)
    ensures x / 16 / 16 == x / 256 && x % 256 % 16 == x % 16 && x % 256 / 16 == x / 16 % 16
  {
  }

  lemma AndLow1(x: nat)
    ensures Bitwise(And, x, 1) == x % 2
  {
    BitwiseHalf(And, x, 1);
    AndNothing(x / 2);
  }

  lemma AndLow2(x: nat)
    ensures Bitwise(And, x, 3) == x % 4
  {
    hide Bitwise;
    BitwiseHalf(And, x, 3);
    AndLow1(x / 2);
    TwoBits(x);
  }

  lemma TwoBits(x: nat)
    ensures x % 4 == 2 * (x / 2 % 2) + x % 2
  {
  }

  lemma AndLow4(x: nat)
    ensures Bitwise(And, x, 15) == x % 16
  {
    AndBase4(x, 15);
    AndLow2(x % 4);
    AndLow2(x / 4);
    hide Bitwise;
    Digits4(x);
    assert 15 % 4 == 3 && 15 / 4 == 3;
  }

  /** In base 4 the first step leaves each digit's own bit count. */
  lemma {:induction false} PairsStep(w: nat, n: nat)
    requires w < Pow2(2 * n)
    ensures Bitwise(And, w / 2, Fives(n)) + Packed4(w) == w
  {
    if n == 0 {
      AndNothing(0);
    } else {
      assert Pow2(2 * n) == 4 * Pow2(2 * (n - 1));
      PairsStep(w / 4, n - 1);
      PairsDigit(w, Fives(n - 1));
    }
  }

  lemma PairsDigit(w: nat, mask: nat)
    ensures Bitwise(And, w / 2, 1 + 4 * mask) == (w % 4) / 2 + 4 * Bitwise(And, (w / 4) / 2, mask)
    ensures PopCount(w % 4) + (w % 4) / 2 == w % 4
  {
    AndBase4(w / 2, 1 + 4 * mask);
    AndLow1(w / 2 % 4);
    CountOfDigit(w % 4);
    PairOfDigit(w);
    DivMod4(mask);
    hide Bitwise, PopCount;
  }

  lemma PairOfDigit(w: nat)
    ensures w / 2 % 4 % 2 == w % 4 / 2 && w / 2 / 4 == w / 4 / 2
  {
  }

  lemma DivMod4(mask: nat)
    ensures (1 + 4 * mask) % 4 == 1 && (1 + 4 * mask) / 4 == mask
  {
  }

  lemma CountOfDigit(r: nat)
    requires r < 4
    ensures PopCount(r) + r / 2 == r
  {
    assert PopCount(3) == 2 && PopCount(2) == 1 && PopCount(1) == 1;
  }

  lemma CountBase4(w: nat)
    ensures PopCount(w) == PopCount(w % 4) + PopCount(w / 4)
    ensures PopCount(w % 4) <= 2
  {
    PopCountHalf(w);
    PopCountHalf(w / 2);
    PopCountHalf(w % 4);
    PopCountHalf(w % 4 / 2);
    assert w % 4 / 2 / 2 == 0;
  }

  lemma CountBase16(w: nat)
    ensures PopCount(w) == PopCount(w % 16) + PopCount(w / 16)
    ensures PopCount(w % 16) == PopCount(w % 4) + PopCount(w / 4 % 4) <= 4
  {
    CountBase4(w);
    CountBase4(w / 4);
    CountBase4(w % 16);
    CountBase4(w / 4 % 4);
    hide PopCount;
    Digits4(w);
  }

  lemma CountBase256(w: nat)
    ensures PopCount(w) == PopCount(w % 256) + PopCount(w / 256)
    ensures PopCount(w % 256) == PopCount(w % 16) + PopCount(w / 16 % 16) <= 8
  {
    CountBase16(w);
    CountBase16(w / 16);
    CountBase16(w % 256);
    CountBase16(w / 16 % 16);
    hide PopCount;
    Digits16(w);
  }

  lemma Pow2Plus4(n: nat)
    ensures Pow2(n + 4) == 16 * Pow2(n)
  {
    assert Pow2(n + 2) == 4 * Pow2(n);
    assert Pow2(n + 4) == 4 * Pow2(n + 2);
  }

  lemma Pow2Plus8(n: nat)
    ensures Pow2(n + 8) == 256 * Pow2(n)
  {
    Pow2Plus4(n);
    Pow2Plus4(n + 4);
    hide Pow2;
  }

  /** The second step adds the counts of neighbouring pairs. */
  lemma {:induction false} NibblesStep(w: nat, n: nat)
    requires w < Pow2(4 * n)
    ensures Bitwise(And, Packed4(w), Threes(n)) + Bitwise(And, Packed4(w) / 4, Threes(n)) == Packed16(w)
  {
    if n == 0 {
      AndNothing(0);
    } else {
      Pow2Plus4(4 * (n - 1));
      NibblesStep(w / 16, n - 1);
      NibblesOfWord(w, Threes(n - 1));
    }
  }

  lemma NibblesOfWord(w: nat, mask: nat)
    requires Bitwise(And, Packed4(w / 16), mask) + Bitwise(And, Packed4(w / 16) / 4, mask) == Packed16(w / 16)
    ensures Bitwise(And, Packed4(w), 3 + 16 * mask) + Bitwise(And, Packed4(w) / 4, 3 + 16 * mask) == Packed16(w)
  {
    assert Packed16(w) == PopCount(w % 16) + 16 * Packed16(w / 16);
    hide Bitwise, Packed4, Packed16, PopCount;
    Packed4Digits(w);
    NibblesDigit(PopCount(w % 4), PopCount(w / 4 % 4), Packed4(w / 16), Packed4(w / 64), PopCount(w / 16 % 4), mask);
    CountBase16(w);
  }

  lemma Packed4Digits(w: nat)
    ensures Packed4(w) == PopCount(w % 4) + 4 * PopCount(w / 4 % 4) + 16 * Packed4(w / 16)
    ensures Packed4(w / 16) == PopCount(w / 16 % 4) + 4 * Packed4(w / 64)
    ensures PopCount(w % 4) <= 2 && PopCount(w / 4 % 4) <= 2 && PopCount(w / 16 % 4) <= 2
  {
    CountBase4(w);
    CountBase4(w / 4);
    CountBase4(w / 16);
    hide PopCount;
    assert w / 4 / 4 == w / 16 && w / 16 / 4 == w / 64;
  }

  lemma DivMod16(lo: nat, hi: nat)
    requires lo < 16
    ensures (lo + 16 * hi) % 16 == lo && (lo + 16 * hi) / 16 == hi
  {
  }

  lemma DivMod256(lo: nat, hi: nat)
    requires lo < 256
    ensures (lo + 256 * hi) % 256 == lo && (lo + 256 * hi) / 256 == hi
  {
  }

  lemma LowNibble(lo: nat, hi: nat, mask: nat)
    requires lo < 16
    ensures Bitwise(And, lo + 16 * hi, 3 + 16 * mask) == lo % 4 + 16 * Bitwise(And, hi, mask)
  {
    AndBase16(lo + 16 * hi, 3 + 16 * mask);
    AndLow2(lo);
    hide Bitwise;
    DivMod16(lo, hi);
    DivMod16(3, mask);
  }

  lemma NibblesDigit(p0: nat, p1: nat, rest: nat, rest2: nat, p2: nat, mask: nat)
    requires p0 <= 2 && p1 <= 2 && p2 <= 2 && rest == p2 + 4 * rest2
    ensures var y := p0 + 4 * p1 + 16 * rest;
            Bitwise(And, y, 3 + 16 * mask) + Bitwise(And, y / 4, 3 + 16 * mask)
            == p0 + p1 + 16 * (Bitwise(And, rest, mask) + Bitwise(And, rest / 4, mask))
  {
    hide Bitwise;
    LowNibble(p0 + 4 * p1, rest, mask);
    LowNibble(p1 + 4 * p2, rest2, mask);
    assert rest / 4 == rest2;
    assert (p0 + 4 * p1 + 16 * rest) / 4 == p1 + 4 * p2 + 16 * rest2;
  }

  /** The third step adds the counts of neighbouring nibbles. */
  lemma {:induction false} BytesStep(w: nat, n: nat)
    requires w < Pow2(8 * n)
    ensures Bitwise(And, Packed16(w) + Packed16(w) / 16, Fifteens(n)) == Packed256(w)
  {
    if n == 0 {
      AndNothing(0);
    } else {
      Pow2Plus8(8 * (n - 1));
      BytesStep(w / 256, n - 1);
      BytesOfWord(w, Fifteens(n - 1));
    }
  }

  lemma BytesOfWord(w: nat, mask: nat)
    requires Bitwise(And, Packed16(w / 256) + Packed16(w / 256) / 16, mask) == Packed256(w / 256)
    ensures Bitwise(And, Packed16(w) + Packed16(w) / 16, 15 + 256 * mask) == Packed256(w)
  {
    hide Bitwise, Packed16, Packed256, PopCount;
    Packed256Digits(w);
    Packed16Digits(w);
    BytesDigit(PopCount(w % 16), PopCount(w / 16 % 16), Packed16(w / 256), Packed16(w / 4096), PopCount(w / 256 % 16), mask);
    CountBase256(w);
  }

  lemma Packed256Digits(w: nat)
    ensures Packed256(w) == PopCount(w % 256) + 256 * Packed256(w / 256)
  {
  }

  lemma Packed16Digits(w: nat)
    ensures Packed16(w) == PopCount(w % 16) + 16 * PopCount(w / 16 % 16) + 256 * Packed16(w / 256)
    ensures Packed16(w / 256) == PopCount(w / 256 % 16) + 16 * Packed16(w / 4096)
    ensures PopCount(w % 16) <= 4 && PopCount(w / 16 % 16) <= 4 && PopCount(w / 256 % 16) <= 4
  {
    CountBase16(w);
    CountBase16(w / 16);
    CountBase16(w / 256);
    hide PopCount;
    assert w / 16 / 16 == w / 256 && w / 256 / 16 == w / 4096;
  }

  lemma LowByte(lo: nat, hi: nat, mask: nat)
    requires lo < 256
    ensures Bitwise(And, lo + 256 * hi, 15 + 256 * mask) == lo % 16 + 256 * Bitwise(And, hi, mask)
  {
    AndBase256(lo + 256 * hi, 15 + 256 * mask);
    AndLow4(lo);
    hide Bitwise;
    DivMod256(lo, hi);
    DivMod256(15, mask);
  }

  lemma BytesDigit(q0: nat, q1: nat, rest: nat, rest2: nat, q2: nat, mask: nat)
    requires q0 <= 4 && q1 <= 4 && q2 <= 4 && rest == q2 + 16 * rest2
    ensures var y := q0 + 16 * q1 + 256 * rest;
            Bitwise(And, y + y / 16, 15 + 256 * mask) == q0 + q1 + 256 * Bitwise(And, rest + rest / 16, mask)
  {
    hide Bitwise;
    LowByte(q0 + q1 + 16 * (q1 + q2), rest + rest2, mask);
    assert rest / 16 == rest2;
    assert (q0 + 16 * q1 + 256 * rest) / 16 == q1 + 16 * rest;
  }

  /** The last step sums the eight bytes, none of which can carry. */
  lemma FoldSums(b: seq<nat>)
    requires |b| == 8 && forall j | 0 <= j < 8 :: b[j] <= 8
    ensures FoldBytes(Horner(b)) == b[0] + b[1] + b[2] + b[3] + b[4] + b[5] + b[6] + b[7]
  {
    var d := [b[0] + b[1], b[1] + b[2], b[2] + b[3], b[3] + b[4], b[4] + b[5], b[5] + b[6], b[6] + b[7], b[7]];
    FoldNeighbours(b, d);
    FoldWords(d);
    hide Horner, FoldPairs;
  }

  lemma FoldNeighbours(b: seq<nat>, d: seq<nat>)
    requires |b| == 8 && forall j | 0 <= j < 8 :: b[j] <= 8
    requires |d| == 8 && d[7] == b[7] && forall j | 0 <= j < 7 :: d[j] == b[j] + b[j + 1]
    ensures Horner(b) + Horner(b) / 0x100 == Horner(d)
  {
  }

  /** The number with the given base-256 digits, least first. */
  function Horner(b: seq<nat>): nat
    requires |b| == 8
  {
    b[0] + 0x100 * (b[1] + 0x100 * (b[2] + 0x100 * (b[3] + 0x100 * (b[4] + 0x100 * (b[5] + 0x100 * (b[6] + 0x100 * b[7]))))))
  }

  lemma FoldWords(d: seq<nat>)
    requires |d| == 8 && forall j | 0 <= j < 8 :: d[j] <= 16
    requires d[0] + d[2] + d[4] + d[6] <= 64
    ensures FoldPairs(Horner(d)) == d[0] + d[2] + d[4] + d[6]
  {
    var e := [d[0] + d[2], d[1] + d[3], d[2] + d[4], d[3] + d[5], d[4] + d[6], d[5] + d[7], d[6], d[7]];
    DropTwo(d);
    AddTwo(d, e);
    hide Horner;
    FoldHalves(e);
  }

  lemma DropTwo(d: seq<nat>)
    requires |d| == 8 && forall j | 0 <= j < 8 :: d[j] <= 16
    ensures Horner(d) / 0x1_0000 == Horner([d[2], d[3], d[4], d[5], d[6], d[7], 0, 0])
  {
  }

  lemma AddTwo(d: seq<nat>, e: seq<nat>)
    requires |d| == 8 && |e| == 8 && e[6] == d[6] && e[7] == d[7] && forall j | 0 <= j < 6 :: e[j] == d[j] + d[j + 2]
    ensures Horner(d) + Horner([d[2], d[3], d[4], d[5], d[6], d[7], 0, 0]) == Horner(e)
  {
  }

  lemma FoldHalves(e: seq<nat>)
    requires |e| == 8 && forall j | 0 <= j < 8 :: e[j] <= 32
    requires e[0] + e[4] <= 64
    ensures var i2 := Horner(e); (i2 + i2 / 0x1_0000_0000) % 0x80 == e[0] + e[4]
  {
    DropFour(e);
  }

  lemma DropFour(e: seq<nat>)
    requires |e| == 8 && forall j | 0 <= j < 8 :: e[j] <= 32
    ensures Horner(e) / 0x1_0000_0000 == Horner([e[4], e[5], e[6], e[7], 0, 0, 0, 0])
  {
  }

  /** warren_bit_count counts the bits. */
  lemma WarrenCounts(i: nat)
    requires i < U64_SIZE
    ensures WarrenBitCount(i) == PopCount(i)
  {
    ThreeSteps(i);
    var b := PackedBytes(i);
    FoldSums(b);
    hide Step2, Step4, Step8, FoldBytes, Horner, PopCount, Packed256;
  }

  lemma ThreeSteps(i: nat)
    requires i < U64_SIZE
    ensures Step8(Step4(Step2(i))) == Packed256(i)
  {
    Step2Packs(i);
    Step4Packs(i);
    Step8Packs(i);
    hide Step2, Step4, Step8, Packed4, Packed16, Packed256;
  }

  lemma Step2Packs(i: nat)
    requires i < U64_SIZE
    ensures Step2(i) == Packed4(i)
  {
    Pow2Values();
    Masks();
    PairsStep(i, 32);
    hide Pow2, Bitwise, Packed4, Fives;
  }

  lemma Step4Packs(i: nat)
    requires i < U64_SIZE
    ensures Step4(Packed4(i)) == Packed16(i)
  {
    Pow2Values();
    Masks();
    NibblesStep(i, 16);
    hide Pow2, Bitwise, Packed4, Packed16, Threes;
  }

  lemma Step8Packs(i: nat)
    requires i < U64_SIZE
    ensures Step8(Packed16(i)) == Packed256(i)
  {
    Pow2Values();
    Masks();
    BytesStep(i, 8);
    hide Pow2, Bitwise, Packed16, Packed256, Fifteens;
  }

  lemma Masks()
    ensures Fives(32) == 0x5555_5555_5555_5555
    ensures Threes(16) == 0x3333_3333_3333_3333
    ensures Fifteens(8) == 0x0f0f_0f0f_0f0f_0f0f
  {
    assert Fives(8) == 0x5555;
    assert Fives(16) == 0x5555_5555;
    assert Fives(24) == 0x5555_5555_5555;
    assert Threes(8) == 0x3333_3333;
  }

  lemma PackedBytes(w: nat) returns (b: seq<nat>)
    requires w < U64_SIZE
    ensures |b| == 8 && (forall j | 0 <= j < 8 :: b[j] <= 8)
    ensures Packed256(w) == Horner(b)
    ensures PopCount(w) == b[0] + b[1] + b[2] + b[3] + b[4] + b[5] + b[6] + b[7]
  {
    hide Packed256, PopCount;
    var w1, w2, w3 := w / 0x100, w / 0x1_0000, w / 0x100_0000;
    var w4, w5 := w / 0x1_0000_0000, w / 0x100_0000_0000;
    var w6, w7 := w / 0x1_0000_0000_0000, w / 0x100_0000_0000_0000;
    Quotients(w);
    PackedByte(w); PackedByte(w1); PackedByte(w2); PackedByte(w3);
    PackedByte(w4); PackedByte(w5); PackedByte(w6); PackedByte(w7);
    b := [PopCount(w % 256), PopCount(w1 % 256), PopCount(w2 % 256), PopCount(w3 % 256),
          PopCount(w4 % 256), PopCount(w5 % 256), PopCount(w6 % 256), PopCount(w7 % 256)];
  }

  lemma Quotients(w: nat)
    requires w < U64_SIZE
    ensures w / 0x100 / 256 == w / 0x1_0000 && w / 0x1_0000 / 256 == w / 0x100_0000
    ensures w / 0x100_0000 / 256 == w / 0x1_0000_0000 && w / 0x1_0000_0000 / 256 == w / 0x100_0000_0000
    ensures w / 0x100_0000_0000 / 256 == w / 0x1_0000_0000_0000
    ensures w / 0x1_0000_0000_0000 / 256 == w / 0x100_0000_0000_0000
    ensures w / 0x100_0000_0000_0000 / 256 == 0
  {
  }

  lemma PackedByte(w: nat)
    ensures Packed256(w) == PopCount(w % 256) + 256 * Packed256(w / 256)
    ensures PopCount(w) == PopCount(w % 256) + PopCount(w / 256)
    ensures PopCount(w % 256) <= 8
    ensures Packed256(0) == PopCount(0) == 0
  {
    CountBase256(w);
  }

  // ----- carry-save adders -----

  function CsaHigh(a: nat, b: nat, c: nat): nat {
    var u := Bitwise(Xor, a, b);
    Bitwise(Or, Bitwise(And, a, b), Bitwise(And, u, c))
  }

  function CsaLow(a: nat, b: nat, c: nat): nat {
    Bitwise(Xor, Bitwise(Xor, a, b), c)
  }

  /** Three words go in; high and low hold the two bits of each column's sum. */
  lemma {:induction false} CsaSums(a: nat, b: nat, c: nat)
    ensures 2 * PopCount(CsaHigh(a, b, c)) + PopCount(CsaLow(a, b, c)) == PopCount(a) + PopCount(b) + PopCount(c)
    decreases a + b + c
  {
    if a != 0 || b != 0 || c != 0 {
      CsaSums(a / 2, b / 2, c / 2);
      CsaColumn(a, b, c);
      hide CsaHigh, CsaLow;
      PopCountHalf(a);
      PopCountHalf(b);
      PopCountHalf(c);
    }
  }

  lemma CsaColumn(a: nat, b: nat, c: nat)
    ensures PopCount(CsaHigh(a, b, c)) == PopCount(CsaHigh(a / 2, b / 2, c / 2)) + (a % 2 + b % 2 + c % 2) / 2
    ensures PopCount(CsaLow(a, b, c)) == PopCount(CsaLow(a / 2, b / 2, c / 2)) + (a % 2 + b % 2 + c % 2) % 2
  {
    BitwiseCount(Or, Bitwise(And, a, b), Bitwise(And, Bitwise(Xor, a, b), c));
    BitwiseCount(Xor, Bitwise(Xor, a, b), c);
    BitwiseHalf(And, a, b);
    BitwiseHalf(Xor, a, b);
    BitwiseHalf(And, Bitwise(Xor, a, b), c);
    hide Bitwise;
  }

  lemma CsaFits(a: nat, b: nat, c: nat)
    requires a < U64_SIZE && b < U64_SIZE && c < U64_SIZE
    ensures CsaHigh(a, b, c) < U64_SIZE && CsaLow(a, b, c) < U64_SIZE
  {
    assert Pow2(64) == U64_SIZE by {
      Pow2Values();
    }
    hide Pow2, Bitwise;
    BitwiseFits(Xor, a, b, 64);
    BitwiseFits(And, a, b, 64);
    BitwiseFits(And, Bitwise(Xor, a, b), c, 64);
    BitwiseFits(Xor, Bitwise(Xor, a, b), c, 64);
    BitwiseFits(Or, Bitwise(And, a, b), Bitwise(And, Bitwise(Xor, a, b), c), 64);
  }

  ghost predicate Are64Bit(words: seq<nat>) {
    forall i | 0 <= i < |words| :: words[i] < U64_SIZE
  }

  lemma EightMore(words: seq<nat>, i: nat)
    requires i + 8 <= |words|
    ensures PopCountOf(words[..i + 8]) == PopCountOf(words[..i])
              + PopCount(words[i]) + PopCount(words[i + 1]) + PopCount(words[i + 2]) + PopCount(words[i + 3])
              + PopCount(words[i + 4]) + PopCount(words[i + 5]) + PopCount(words[i + 6]) + PopCount(words[i + 7])
  {
    hide PopCount, PopCountOf;
    OneMore(words, i);
    OneMore(words, i + 1);
    OneMore(words, i + 2);
    OneMore(words, i + 3);
    OneMore(words, i + 4);
    OneMore(words, i + 5);
    OneMore(words, i + 6);
    OneMore(words, i + 7);
  }

  lemma OneMore(words: seq<nat>, i: nat)
    requires i < |words|
    ensures PopCountOf(words[..i + 1]) == PopCountOf(words[..i]) + PopCount(words[i])
  {
    assert words[..i + 1][..i] == words[..i];
  }

  /** One round of the adder tree: eight more words into the accumulators ones, twos and fours. */
  method AddEight(words: seq<nat>, i: nat, ones: nat, twos: nat, fours: nat)
    returns (ones': nat, twos': nat, fours': nat, eights: nat)
    requires i + 8 <= |words| && Are64Bit(words) && ones < U64_SIZE && twos < U64_SIZE && fours < U64_SIZE
    ensures ones' < U64_SIZE && twos' < U64_SIZE && fours' < U64_SIZE && eights < U64_SIZE
    ensures 8 * PopCount(eights) + 4 * PopCount(fours') + 2 * PopCount(twos') + PopCount(ones')
            == 4 * PopCount(fours) + 2 * PopCount(twos) + PopCount(ones) + PopCountOf(words[..i + 8]) - PopCountOf(words[..i])
  {
    hide CsaHigh, CsaLow, PopCount, PopCountOf;
    EightMore(words, i);
    var o0, t0 := ones, twos;
    CsaSums(o0, words[i], words[i + 1]);
    CsaFits(o0, words[i], words[i + 1]);
    var twosA, o1 := CsaHigh(o0, words[i], words[i + 1]), CsaLow(o0, words[i], words[i + 1]);
    CsaSums(o1, words[i + 2], words[i + 3]);
    CsaFits(o1, words[i + 2], words[i + 3]);
    var twosB, o2 := CsaHigh(o1, words[i + 2], words[i + 3]), CsaLow(o1, words[i + 2], words[i + 3]);
    CsaSums(t0, twosA, twosB);
    CsaFits(t0, twosA, twosB);
    var foursA, t1 := CsaHigh(t0, twosA, twosB), CsaLow(t0, twosA, twosB);

    CsaSums(o2, words[i + 4], words[i + 5]);
    CsaFits(o2, words[i + 4], words[i + 5]);
    var twosC, o3 := CsaHigh(o2, words[i + 4], words[i + 5]), CsaLow(o2, words[i + 4], words[i + 5]);
    CsaSums(o3, words[i + 6], words[i + 7]);
    CsaFits(o3, words[i + 6], words[i + 7]);
    var twosD := CsaHigh(o3, words[i + 6], words[i + 7]);
    ones' := CsaLow(o3, words[i + 6], words[i + 7]);
    CsaSums(t1, twosC, twosD);
    CsaFits(t1, twosC, twosD);
    var foursB := CsaHigh(t1, twosC, twosD);
    twos' := CsaLow(t1, twosC, twosD);

    CsaSums(fours, foursA, foursB);
    CsaFits(fours, foursA, foursB);
    eights := CsaHigh(fours, foursA, foursB);
    fours' := CsaLow(fours, foursA, foursB);
  }

  /** None stands for the exception on a length that is no multiple of 8. A length of 0 is left to
      the caller to avoid: the source's unsigned bound length - 8 then wraps around. */
  method CountBitsSetInMatrix(words: seq<nat>) returns (r: Option<nat>)
    requires |words| > 0 && Are64Bit(words)
    ensures r == if |words| % 8 == 0 then Some(PopCountOf(words)) else None
  {
    if |words| % 8 != 0 {
      return None;
    }
    var count := CountEights(words, |words| / 8);
    return Some(count);
  }

  method CountEights(words: seq<nat>, ghost all: nat) returns (count: nat)
    requires |words| == 8 * all > 0 && Are64Bit(words)
    ensures count == PopCountOf(words)
  {
    hide PopCount, PopCountOf, WarrenBitCount, Are64Bit;
    var total: nat, ones: nat, twos: nat, fours: nat := 0, 0, 0, 0;
    var i := 0;
    ghost var rounds := 0;
    NoBits();
    while i <= |words| - 8
      invariant i == 8 * rounds && 0 <= i <= |words|
      invariant ones < U64_SIZE && twos < U64_SIZE && fours < U64_SIZE
      invariant 8 * total + 4 * PopCount(fours) + 2 * PopCount(twos) + PopCount(ones) == PopCountOf(words[..i])
    {
      hide PopCount, PopCountOf, WarrenBitCount, Are64Bit;
      var eights: nat;
      ones, twos, fours, eights := AddEight(words, i, ones, twos, fours);
      WarrenCounts(eights);
      total := total + WarrenBitCount(eights);
      i := i + 8;
      rounds := rounds + 1;
    }
    assert words[..i] == words;
    count := Totalled(total, ones, twos, fours);
  }

  function Totalled(total: nat, ones: nat, twos: nat, fours: nat): (t: nat)
    requires ones < U64_SIZE && twos < U64_SIZE && fours < U64_SIZE
    ensures t == 8 * total + 4 * PopCount(fours) + 2 * PopCount(twos) + PopCount(ones)
  {
    WarrenCounts(fours);
    WarrenCounts(twos);
    WarrenCounts(ones);
    8 * total + 4 * WarrenBitCount(fours) + 2 * WarrenBitCount(twos) + WarrenBitCount(ones)
  }

  lemma NoBits()
    ensures PopCount(0) == 0 && PopCountOf([]) == 0
  {
  }
}
