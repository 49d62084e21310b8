/** The length-limited unary code of 65 symbols that encodes column distances
    (cpc/include/compression_data.hpp), and why no codeword of it is the beginning of another: read
    backwards, its codewords are the beginnings of consecutive ranges of 12-bit numbers. */
module UnaryTable {
  import opened Words
  import opened BitStreams
  import opened BitCodes

  /** An entry of length_limited_unary_encoding_table65. The 54 codewords of 12 bits, 0x53f, 0xd3f,
      0x33f, ... up to 0xfff, are the numbers from 4042 to 4095 read backwards. */
  function UnaryEntry(symbol: nat): nat {
    match symbol
    case 0 => 0x1000 case 1 => 0x2001 case 2 => 0x3003 case 3 => 0x4007 case 4 => 0x500f
    case 5 => 0x701f case 6 => 0x805f case 7 => 0x80df case 8 => 0xa03f case 9 => 0xa23f
    case 10 => 0xb13f
    case _ => 0xc000 + Reverse(4031 + symbol, 12)
  }

  function UnaryCode(): (enc: seq<nat>)
    ensures |enc| == 65
  {
    seq(65, (symbol: nat) => UnaryEntry(symbol))
  }

  /** The n low bits in reverse order. */
  function Reverse(x: nat, n: nat): nat {
    if n == 0 then 0 else (if x % 2 == 1 then Pow2(n - 1) else 0) + Reverse(x / 2, n - 1)
  }

  lemma {:induction false} ReverseFits(x: nat, n: nat)
    ensures Reverse(x, n) < Pow2(n)
    decreases n
  {
    if n > 0 {
      ReverseFits(x / 2, n - 1);
    }
  }

  /** Numbers with the same n low bits as v lie close above v when reversed. */
  lemma {:induction false} ReverseRange(x: nat, v: nat, n: nat, m: nat)
    requires n <= m && LowBits(x, n) == v < Pow2(n)
    ensures Reverse(v, m) <= Reverse(x, m) < Reverse(v, m) + Pow2(m - n)
    decreases n
  {
    if n == 0 {
      ReverseFits(x, m);
      ReverseZero(m);
    } else {
      ReverseRange(x / 2, v / 2, n - 1, m - 1);
    }
  }

  lemma {:induction false} ReverseZero(m: nat)
    ensures Reverse(0, m) == 0
  {
    if m > 0 {
      ReverseZero(m - 1);
    }
  }

  lemma ReverseOf(x: nat)
    ensures Reverse(x, 12) == 2048 * (x % 2) + 1024 * (x / 2 % 2) + 512 * (x / 4 % 2) + 256 * (x / 8 % 2)
                              + 128 * (x / 16 % 2) + 64 * (x / 32 % 2) + 32 * (x / 64 % 2) + 16 * (x / 128 % 2)
                              + 8 * (x / 256 % 2) + 4 * (x / 512 % 2) + 2 * (x / 1024 % 2) + x / 2048 % 2
  {
    ReverseStep(x, 12); ReverseStep(x / 2, 11); ReverseStep(x / 4, 10); ReverseStep(x / 8, 9);
    ReverseStep(x / 16, 8); ReverseStep(x / 32, 7); ReverseStep(x / 64, 6); ReverseStep(x / 128, 5);
    ReverseStep(x / 256, 4); ReverseStep(x / 512, 3); ReverseStep(x / 1024, 2); ReverseStep(x / 2048, 1);
    ReverseStep(x / 4096, 0);
    SmallPowers();
    hide Reverse, Pow2;
    HalvesOf(x);
  }

  lemma HalvesOf(x: nat)
    ensures x / 2 / 2 == x / 4 && x / 4 / 2 == x / 8 && x / 8 / 2 == x / 16 && x / 16 / 2 == x / 32
    ensures x / 32 / 2 == x / 64 && x / 64 / 2 == x / 128 && x / 128 / 2 == x / 256 && x / 256 / 2 == x / 512
    ensures x / 512 / 2 == x / 1024 && x / 1024 / 2 == x / 2048 && x / 2048 / 2 == x / 4096
  {
  }

  lemma ReverseStep(x: nat, n: nat)
    ensures n > 0 ==> Reverse(x, n) == Pow2(n - 1) * (x % 2) + Reverse(x / 2, n - 1)
    ensures n == 0 ==> Reverse(x, n) == 0
  {
  }

  lemma SmallPowers()
    ensures Pow2(0) == 1 && Pow2(1) == 2 && Pow2(2) == 4 && Pow2(3) == 8 && Pow2(4) == 16 && Pow2(5) == 32
    ensures Pow2(6) == 64 && Pow2(7) == 128 && Pow2(8) == 256 && Pow2(9) == 512 && Pow2(10) == 1024 && Pow2(11) == 2048
  {
  }

  lemma {:induction false} ReverseTop(y: nat, n: nat)
    requires y < Pow2(n)
    ensures Reverse(y, n + 1) == 2 * Reverse(y, n)
    ensures Reverse(y + Pow2(n), n + 1) == 2 * Reverse(y, n) + 1
  {
    if n > 0 {
      ReverseTop(y / 2, n - 1);
      assert (y + Pow2(n)) / 2 == y / 2 + Pow2(n - 1) && (y + Pow2(n)) % 2 == y % 2;
    }
  }

  lemma {:induction false} ReverseTwice(x: nat, n: nat)
    requires x < Pow2(n)
    ensures Reverse(Reverse(x, n), n) == x
    decreases n
  {
    if n > 0 {
      ReverseTwice(x / 2, n - 1);
      ReverseFits(x / 2, n - 1);
      ReverseTop(Reverse(x / 2, n - 1), n - 1);
    }
  }

  /** Where the range of a symbol begins. */
  function RangeStart(symbol: nat): nat {
    match symbol
    case 0 => 0 case 1 => 2048 case 2 => 3072 case 3 => 3584 case 4 => 3840 case 5 => 3968
    case 6 => 4000 case 7 => 4016 case 8 => 4032 case 9 => 4036 case 10 => 4040
    case _ => 4031 + symbol
  }

  /** A codeword fits its length; reversed, it starts a range that ends where the next one starts. */
  predicate InOrder(s: nat) {
    var entry := UnaryEntry(s);
    && 1 <= CodeLength(entry) <= 12
    && CodeValue(entry) < Pow2(CodeLength(entry))
    && Reverse(CodeValue(entry), 12) == RangeStart(s)
    && RangeStart(s) + Pow2(12 - CodeLength(entry)) == RangeStart(s + 1)
  }

  lemma Symbols0And1()
    ensures InOrder(0) && InOrder(1)
  {
    SmallPowers();
    hide Reverse, Pow2;
    ReverseOf(0);
    ReverseOf(1);
  }

  lemma Symbols2And3()
    ensures InOrder(2) && InOrder(3)
  {
    SmallPowers();
    hide Reverse, Pow2;
    ReverseOf(3);
    ReverseOf(7);
  }

  lemma Symbols4And5()
    ensures InOrder(4) && InOrder(5)
  {
    SmallPowers();
    hide Reverse, Pow2;
    ReverseOf(15);
    ReverseOf(31);
  }

  lemma Symbols6And7()
    ensures InOrder(6) && InOrder(7)
  {
    SmallPowers();
    hide Reverse, Pow2;
    ReverseOf(0x5f);
    ReverseOf(0xdf);
  }

  lemma Symbols8And9()
    ensures InOrder(8) && InOrder(9)
  {
    SmallPowers();
    hide Reverse, Pow2;
    ReverseOf(0x3f);
    ReverseOf(0x23f);
  }

  lemma Symbol10()
    ensures InOrder(10)
  {
    SmallPowers();
    hide Reverse, Pow2;
    ReverseOf(0x13f);
  }

  lemma LongCodewords(s: nat)
    requires 11 <= s < 65
    ensures InOrder(s)
  {
    assert Pow2(12) == 4096;
    assert Pow2(0) == 1;
    ReverseFits(4031 + s, 12);
    ReverseTwice(4031 + s, 12);
    hide Reverse, Pow2;
  }

  lemma AllInOrder(s: nat)
    requires s < 65
    ensures InOrder(s)
  {
    if s < 11 {
      Symbols0And1();
      Symbols2And3();
      Symbols4And5();
      Symbols6And7();
      Symbols8And9();
      Symbol10();
      hide InOrder;
    } else {
      LongCodewords(s);
    }
  }

  lemma {:induction false} RangesApart(s: nat, t: nat)
    requires s < t < 65
    ensures RangeStart(s + 1) <= RangeStart(t)
  {
    if s + 1 < t {
      RangesApart(s, t - 1);
      AllInOrder(t - 1);
    }
  }

  lemma NoPrefix(s: nat, t: nat)
    requires s < 65 && t < 65 && s != t && CodeLength(UnaryEntry(s)) <= CodeLength(UnaryEntry(t))
    ensures LowBits(CodeValue(UnaryEntry(t)), CodeLength(UnaryEntry(s))) != CodeValue(UnaryEntry(s))
  {
    RangesDisjoint(s, t);
    OwnRange(s);
    OwnRange(t);
    hide Reverse, Pow2, UnaryEntry, RangeStart, LowBits, CodeLength, CodeValue;
    var m: nat, u: nat, v: nat := CodeLength(UnaryEntry(s)), CodeValue(UnaryEntry(s)), CodeValue(UnaryEntry(t));
    if LowBits(v, m) == u {
      ReverseRange(v, u, m, 12);
      assert false;
    }
  }

  lemma OwnRange(s: nat)
    requires s < 65
    ensures var m, u := CodeLength(UnaryEntry(s)), CodeValue(UnaryEntry(s));
            m <= 12 && u < Pow2(m) && Reverse(u, 12) == RangeStart(s) && RangeStart(s) + Pow2(12 - m) == RangeStart(s + 1)
  {
    AllInOrder(s);
    hide Reverse, Pow2, UnaryEntry, RangeStart;
  }

  lemma RangesDisjoint(s: nat, t: nat)
    requires s < 65 && t < 65 && s != t
    ensures RangeStart(t) < RangeStart(s) || RangeStart(s + 1) <= RangeStart(t)
  {
    hide RangeStart;
    if s < t {
      RangesApart(s, t);
    } else {
      RangesApart(t, s);
      RangeIsProper(t);
    }
  }

  lemma RangeIsProper(s: nat)
    requires s < 65
    ensures RangeStart(s) < RangeStart(s + 1)
  {
    AllInOrder(s);
    hide Reverse, UnaryEntry, RangeStart;
    var n: nat := 12 - CodeLength(UnaryEntry(s));
    assert Pow2(n) > 0;
  }

  lemma UnaryIsPrefixCode()
    ensures IsPrefixCode(UnaryCode())
  {
    hide UnaryEntry, LowBits, Pow2;
    forall s | 0 <= s < 65
      ensures 1 <= CodeLength(UnaryCode()[s]) <= 12 && CodeValue(UnaryCode()[s]) < Pow2(CodeLength(UnaryCode()[s]))
    {
      AllInOrder(s);
    }
    forall s, t | 0 <= s < 65 && 0 <= t < 65 && s != t && CodeLength(UnaryCode()[s]) <= CodeLength(UnaryCode()[t])
      ensures LowBits(CodeValue(UnaryCode()[t]), CodeLength(UnaryCode()[s])) != CodeValue(UnaryCode()[s])
    {
      NoPrefix(s, t);
    }
  }

  // ----- completeness -----

  /** A codeword of n bits, reversed, ends in zeros. */
  lemma {:induction false} ReverseAligned(v: nat, n: nat, m: nat)
    requires n <= m && v < Pow2(n)
    ensures Reverse(v, m) == Pow2(m - n) * Reverse(v, n)
    decreases n
  {
    if n == 0 {
      ReverseZero(m);
    } else {
      ReverseAligned(v / 2, n - 1, m - 1);
      ReverseStep(v, n);
      ReverseStep(v, m);
      assert (m - 1) - (n - 1) == m - n && Pow2(m - n) * Pow2(n - 1) == Pow2(m - 1) by {
        Pow2Add(m - n, n - 1);
      }
      hide Reverse, Pow2;
      MulDistr(Pow2(m - n), Pow2(n - 1), v % 2, Reverse(v / 2, n - 1));
    }
  }

  lemma SameBlock(d: nat, p: nat, q: nat, r: nat)
    requires d * p <= r < d * p + d && d * q <= r < d * q + d
    ensures p == q
  {
    assert d * (p + 1) == d * p + d && d * (q + 1) == d * q + d;
    if p < q {
      MulMono(d, p + 1, q);
    } else if q < p {
      MulMono(d, q + 1, p);
    }
  }

  /** Only the extensions of a codeword lie in its range. */
  lemma InRange(x: nat, v: nat, n: nat, m: nat)
    requires n <= m && v < Pow2(n)
    requires Reverse(v, m) <= Reverse(x, m) < Reverse(v, m) + Pow2(m - n)
    ensures LowBits(x, n) == v
  {
    var u := LowBits(x, n);
    ReverseRange(x, u, n, m);
    ReverseAligned(u, n, m);
    ReverseAligned(v, n, m);
    SameBlock(Pow2(m - n), Reverse(u, n), Reverse(v, n), Reverse(x, m));
    ReverseTwice(u, n);
    ReverseTwice(v, n);
  }

  /** The last range that starts at r or before. */
  function RangeOf(r: nat, s: nat): (t: nat)
    requires RangeStart(0) <= r
    ensures t <= s && RangeStart(t) <= r && (t < s ==> r < RangeStart(t + 1))
  {
    if s == 0 || RangeStart(s) <= r then s else RangeOf(r, s - 1)
  }

  lemma UnaryIsComplete()
    ensures IsComplete(UnaryCode())
  {
    forall x | 0 <= x < 4096 ensures BeginsWithCodeword(UnaryCode(), x) {
      assert Pow2(12) == 4096;
      ReverseFits(x, 12);
      var s := RangeOf(Reverse(x, 12), 64);
      AllInOrder(s);
      InRange(x, CodeValue(UnaryEntry(s)), CodeLength(UnaryEntry(s)), 12);
      assert Extends(x, UnaryCode()[s]);
    }
  }
}
