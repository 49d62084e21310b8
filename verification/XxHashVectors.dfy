/** Published values of XXH64, one for each way through the code. They are worked out step by step, in
    plain arithmetic apart from the exclusive ors, which are taken byte by byte. */
module XxHashVectors {
  import opened Words
  import opened XxHash64

  // ----- exclusive or, byte by byte -----

  function Number(x: bv8): nat {
    x as nat
  }

  function Half(x: bv8): bv8 {
    x >> 1
  }

  function XorOf(x: bv8, y: bv8): bv8 {
    x ^ y
  }

  lemma Halves(x: bv8)
    ensures Number(x) / 2 == Number(Half(x)) && Number(x) % 2 == Number(x & 1)
  {
  }

  lemma XorParts(x: bv8, y: bv8)
    ensures Half(XorOf(x, y)) == XorOf(Half(x), Half(y)) && XorOf(x, y) & 1 == XorOf(x & 1, y & 1)
    ensures x & 1 in {0, 1} && y & 1 in {0, 1}
  {
  }

  lemma XorHalves(x: bv8, y: bv8)
    ensures Number(XorOf(x, y)) % 2 == if Number(x) % 2 == Number(y) % 2 then 0 else 1
    ensures Number(XorOf(x, y)) / 2 == Number(XorOf(Half(x), Half(y)))
  {
    Halves(x);
    Halves(y);
    Halves(XorOf(x, y));
    XorParts(x, y);
  }

  lemma XorOneBit(x: nat, y: nat)
    ensures Bitwise(Xor, x, y) == 2 * Bitwise(Xor, x / 2, y / 2) + (if x % 2 == y % 2 then 0 else 1)
  {
  }

  lemma HalfFits(a: nat, n: nat)
    requires a < Pow2(n)
    ensures n == 0 ==> a == 0
    ensures n > 0 ==> a / 2 < Pow2(n - 1)
  {
  }

  lemma NoBits(x: bv8, y: bv8)
    requires Number(x) == 0 && Number(y) == 0
    ensures Bitwise(Xor, Number(x), Number(y)) == Number(XorOf(x, y))
  {
  }

  lemma {:induction false} XorNumbers(x: bv8, y: bv8, n: nat)
    requires Number(x) < Pow2(n) && Number(y) < Pow2(n)
    ensures Bitwise(Xor, Number(x), Number(y)) == Number(XorOf(x, y))
    decreases n
  {
    hide Bitwise, Pow2, Number, Half, XorOf;
    HalfFits(Number(x), n);
    HalfFits(Number(y), n);
    if n == 0 {
      NoBits(x, y);
    } else {
      Halves(x);
      Halves(y);
      XorHalves(x, y);
      XorNumbers(Half(x), Half(y), n - 1);
      XorOneBit(Number(x), Number(y));
    }
  }

  lemma {:induction false} XorAbove(a: nat, b: nat, x: nat, y: nat, n: nat)
    requires a < Pow2(n) && b < Pow2(n)
    ensures Bitwise(Xor, a + Shl(x, n), b + Shl(y, n)) == Bitwise(Xor, a, b) + Shl(Bitwise(Xor, x, y), n)
    decreases n
  {
    if n == 0 {
      hide Bitwise;
      NothingToXor();
    } else {
      XorAbove(a / 2, b / 2, x, y, n - 1);
      XorOneBit(a, b);
      hide Bitwise;
      XorOneBit(a + Shl(x, n), b + Shl(y, n));
    }
  }

  lemma NothingToXor()
    ensures Bitwise(Xor, 0, 0) == 0
  {
  }

  lemma NumberFits(x: bv8)
    ensures Number(x) < 256
  {
  }

  lemma XorNextByte(x: nat, y: nat, a: bv8, b: bv8)
    ensures Bitwise(Xor, 256 * x + Number(a), 256 * y + Number(b)) == 256 * Bitwise(Xor, x, y) + Number(XorOf(a, b))
  {
    Pow2Values();
    ShlIsMul(x, 8);
    ShlIsMul(y, 8);
    ShlIsMul(Bitwise(Xor, x, y), 8);
    hide Bitwise, Shl, XorOf, Number;
    NumberFits(a);
    NumberFits(b);
    hide Pow2;
    XorNumbers(a, b, 8);
    XorAbove(Number(a), Number(b), x, y, 8);
  }

  /** One byte more at the low end. */
  function Push(x: nat, a: bv8): nat {
    256 * x + Number(a)
  }

  lemma XorPush(x: nat, y: nat, a: bv8, b: bv8)
    ensures Bitwise(Xor, Push(x, a), Push(y, b)) == Push(Bitwise(Xor, x, y), XorOf(a, b))
  {
    hide Bitwise, XorOf, Number;
    XorNextByte(x, y, a, b);
  }

  function FromFour(a: bv8, b: bv8, c: bv8, d: bv8): nat {
    0x100_0000 * (a as nat) + 0x1_0000 * (b as nat) + 0x100 * (c as nat) + (d as nat)
  }

  function Pair(high: nat, low: nat): nat {
    0x1_0000_0000 * high + low
  }

  /** A word from its bytes, the highest first. */
  function FromBytes(a: bv8, b: bv8, c: bv8, d: bv8, e: bv8, f: bv8, g: bv8, h: bv8): nat {
    Pair(FromFour(a, b, c, d), FromFour(e, f, g, h))
  }

  lemma Pushed(x: nat, a: bv8, b: bv8, c: bv8, d: bv8)
    ensures Push(Push(Push(Push(x, a), b), c), d) == Pair(x, FromFour(a, b, c, d))
  {
  }

  lemma XorFour(x: nat, y: nat, a: bv8, b: bv8, c: bv8, d: bv8, i: bv8, j: bv8, k: bv8, l: bv8)
    ensures Bitwise(Xor, Pair(x, FromFour(a, b, c, d)), Pair(y, FromFour(i, j, k, l)))
            == Pair(Bitwise(Xor, x, y), FromFour(XorOf(a, i), XorOf(b, j), XorOf(c, k), XorOf(d, l)))
  {
    hide Bitwise, Push, XorOf, FromFour, Pair;
    Pushed(x, a, b, c, d);
    Pushed(y, i, j, k, l);
    Pushed(Bitwise(Xor, x, y), XorOf(a, i), XorOf(b, j), XorOf(c, k), XorOf(d, l));
    XorPush(x, y, a, i);
    XorPush(Push(x, a), Push(y, i), b, j);
    XorPush(Push(Push(x, a), b), Push(Push(y, i), j), c, k);
    XorPush(Push(Push(Push(x, a), b), c), Push(Push(Push(y, i), j), k), d, l);
  }

  lemma NothingAbove(low: nat)
    ensures Pair(0, low) == low && Bitwise(Xor, 0, 0) == 0
  {
  }

  lemma XorWords(a: bv8, b: bv8, c: bv8, d: bv8, e: bv8, f: bv8, g: bv8, h: bv8,
                 i: bv8, j: bv8, k: bv8, l: bv8, m: bv8, n: bv8, o: bv8, p: bv8)
    ensures Bitwise(Xor, FromBytes(a, b, c, d, e, f, g, h), FromBytes(i, j, k, l, m, n, o, p))
            == FromBytes(XorOf(a, i), XorOf(b, j), XorOf(c, k), XorOf(d, l),
                         XorOf(e, m), XorOf(f, n), XorOf(g, o), XorOf(h, p))
  {
    hide Bitwise, FromFour, XorOf, Pair;
    NothingAbove(FromFour(a, b, c, d));
    NothingAbove(FromFour(i, j, k, l));
    NothingAbove(FromFour(XorOf(a, i), XorOf(b, j), XorOf(c, k), XorOf(d, l)));
    XorFour(0, 0, a, b, c, d, i, j, k, l);
    XorFour(FromFour(a, b, c, d), FromFour(i, j, k, l), e, f, g, h, m, n, o, p);
  }

  // ----- the steps in plain arithmetic -----

  lemma {:induction false} OrCommutes(x: nat, y: nat)
    ensures Bitwise(Or, x, y) == Bitwise(Or, y, x)
    decreases x + y
  {
    if x != 0 || y != 0 {
      OrCommutes(x / 2, y / 2);
    }
  }

  /** A rotation by n bits, where p is 2^n and q is 2^(64 - n). */
  function Rotated(x: nat, p: nat, q: nat): nat
    requires q > 0
  {
    (x * p) % U64_SIZE + x / q
  }

  lemma TimesRest(x: nat, p: nat, q: nat)
    requires p > 0 && q > 0 && p * q == U64_SIZE && x < U64_SIZE
    ensures (x * p) % U64_SIZE == (x % q) * p && x / q < p
  {
    var hi, lo := x / q, x % q;
    assert x == q * hi + lo;
    assert (q * hi + lo) * p == (p * q) * hi + lo * p;
    MulMono(p, lo + 1, q);
    assert p * (lo + 1) == lo * p + p;
    DivUnique(x * p, U64_SIZE, hi, lo * p);
    if hi >= p {
      MulMono(q, p, hi);
    }
  }

  /** A rotation moves the high bits to the low end. */
  lemma RotateLeftIs(x: nat, n: nat)
    requires x < U64_SIZE && n <= 64
    ensures RotateLeft(x, n) == Rotated(x, Pow2(n), Pow2(64 - n))
  {
    var p, q := Pow2(n), Pow2(64 - n);
    Pow2Add(n, 64 - n);
    Pow2Values();
    ShlIsMul(x, n);
    ShrIsDiv(x, 64 - n);
    TimesRest(x, p, q);
    ShlIsMul(x % q, n);
    hide Bitwise, Shl, Shr, Pow2;
    OrCommutes(Shl(x % q, n), x / q);
    OrAbove(x / q, x % q, n);
  }

  lemma Powers()
    ensures Pow2(1) == 2 && Pow2(7) == 0x80 && Pow2(11) == 0x800 && Pow2(12) == 0x1000 && Pow2(18) == 0x4_0000
    ensures Pow2(23) == 0x80_0000 && Pow2(27) == 0x800_0000 && Pow2(29) == 0x2000_0000 && Pow2(31) == 0x8000_0000
    ensures Pow2(32) == 0x1_0000_0000 && Pow2(33) == 0x2_0000_0000 && Pow2(37) == 0x20_0000_0000
    ensures Pow2(41) == 0x200_0000_0000 && Pow2(46) == 0x4000_0000_0000 && Pow2(52) == 0x10_0000_0000_0000
    ensures Pow2(53) == 0x20_0000_0000_0000 && Pow2(57) == 0x200_0000_0000_0000 && Pow2(63) == 0x8000_0000_0000_0000
    ensures Pow2(64) == U64_SIZE
  {
    assert Pow2(8) == 0x100;
    assert Pow2(16) == 0x1_0000;
    assert Pow2(24) == 0x100_0000;
    assert Pow2(32) == 0x1_0000_0000;
    assert Pow2(40) == 0x100_0000_0000;
    assert Pow2(48) == 0x1_0000_0000_0000;
    assert Pow2(56) == 0x100_0000_0000_0000;
  }

  lemma WrapFits(x: int)
    ensures Wrap(x) == x % U64_SIZE && 0 <= x % U64_SIZE < U64_SIZE
  {
  }

  lemma XorFits(x: nat, y: nat)
    requires x < U64_SIZE && y < U64_SIZE
    ensures Bitwise(Xor, x, y) < U64_SIZE
  {
    Pow2Values();
    hide Bitwise, Pow2;
    BitwiseFits(Xor, x, y, 64);
  }

  /** m rotated by 31 bits is t. */
  lemma Single(previous: nat, input: nat, m: nat, t: nat, z: nat)
    requires m == (previous + input * PRIME2) % U64_SIZE
    requires t == Rotated(m, 0x8000_0000, 0x2_0000_0000) && z == (t * PRIME1) % U64_SIZE
    ensures ProcessSingle(previous, input) == z
  {
    RotateLeftIs(m, 31);
    Powers();
    hide RotateLeft, Pow2;
  }

  lemma Sum(lanes: Lanes, a: nat, b: nat, c: nat, d: nat, z: nat)
    requires lanes.s0 < U64_SIZE && lanes.s1 < U64_SIZE && lanes.s2 < U64_SIZE && lanes.s3 < U64_SIZE
    requires a == Rotated(lanes.s0, 0x2, 0x8000_0000_0000_0000) && b == Rotated(lanes.s1, 0x80, 0x200_0000_0000_0000)
    requires c == Rotated(lanes.s2, 0x1000, 0x10_0000_0000_0000) && d == Rotated(lanes.s3, 0x4_0000, 0x4000_0000_0000)
    requires z == (a + b + c + d) % U64_SIZE
    ensures Wrap(RotateLeft(lanes.s0, 1) + RotateLeft(lanes.s1, 7) + RotateLeft(lanes.s2, 12)
                 + RotateLeft(lanes.s3, 18)) == z
  {
    hide RotateLeft, Pow2, Rotated;
    Powers();
    RotateLeftIs(lanes.s0, 1);
    RotateLeftIs(lanes.s1, 7);
    RotateLeftIs(lanes.s2, 12);
    RotateLeftIs(lanes.s3, 18);
  }

  lemma Fold(result: nat, lane: nat, k: nat, x: nat, z: nat)
    requires ProcessSingle(0, lane) == k && Bitwise(Xor, result, k) == x && z == (x * PRIME1 + PRIME4) % U64_SIZE
    ensures FoldLane(result, lane) == z
  {
    hide ProcessSingle, Bitwise;
  }

  lemma Eight(result: nat, bytes: seq<Byte>, k: nat, x: nat, t: nat, z: nat)
    requires ProcessSingle(0, Word(bytes)) == k && Bitwise(Xor, result, k) == x < U64_SIZE
    requires t == Rotated(x, 0x800_0000, 0x20_0000_0000) && z == (t * PRIME1 + PRIME4) % U64_SIZE
    ensures EatEight(result, bytes) == z
  {
    hide RotateLeft, Pow2, Bitwise, ProcessSingle, Word, Rotated;
    RotateLeftIs(x, 27);
    Powers();
  }

  lemma Four(result: nat, bytes: seq<Byte>, k: nat, x: nat, t: nat, z: nat)
    requires k == (Word(bytes) * PRIME1) % U64_SIZE && Bitwise(Xor, result, k) == x < U64_SIZE
    requires t == Rotated(x, 0x80_0000, 0x200_0000_0000) && z == (t * PRIME2 + PRIME3) % U64_SIZE
    ensures EatFour(result, bytes) == z
  {
    hide RotateLeft, Pow2, Bitwise, Word, Rotated;
    RotateLeftIs(x, 23);
    Powers();
  }

  lemma One(result: nat, b: Byte, k: nat, x: nat, t: nat, z: nat)
    requires k == (b * PRIME5) % U64_SIZE && Bitwise(Xor, result, k) == x < U64_SIZE
    requires t == Rotated(x, 0x800, 0x20_0000_0000_0000) && z == (t * PRIME1) % U64_SIZE
    ensures EatOne(result, b) == z
  {
    hide RotateLeft, Pow2, Bitwise, Rotated;
    RotateLeftIs(x, 11);
    Powers();
  }

  lemma Mixed(x: nat, x': nat, a: nat, a': nat, b: nat, z: nat)
    requires Bitwise(Xor, x, x / 0x2_0000_0000) == x' && a == (x' * PRIME2) % U64_SIZE
    requires Bitwise(Xor, a, a / 0x2000_0000) == a' && b == (a' * PRIME3) % U64_SIZE
    requires Bitwise(Xor, b, b / 0x1_0000_0000) == z
    ensures MixBits(x) == z
  {
    Powers();
    ShrIsDiv(x, 33);
    ShrIsDiv(a, 29);
    ShrIsDiv(b, 32);
    hide Shr, Pow2, Bitwise;
  }

  // ----- inputs -----

  /** The bytes of a text. */
  function Ascii(text: string): seq<Byte> {
    seq<Byte>(|text|, (i: nat) requires i < |text| => ((text[i] as nat) % 256) as Byte)
  }

  function Digits(a: nat, b: nat, c: nat, d: nat): nat {
    a + 0x100 * b + 0x1_0000 * c + 0x100_0000 * d
  }

  lemma FirstDigit(b: seq<Byte>)
    requires b != []
    ensures Word(b) == b[0] + 256 * Word(b[1..])
  {
  }

  lemma WordOfFour(b: seq<Byte>)
    requires |b| == 4
    ensures Word(b) == Digits(b[0], b[1], b[2], b[3])
  {
    assert b[1..][1..] == b[2..] && b[2..][1..] == b[3..] && b[3..][1..] == [] && Word([]) == 0;
    hide Word;
    FirstDigit(b);
    FirstDigit(b[1..]);
    FirstDigit(b[2..]);
    FirstDigit(b[3..]);
  }

  lemma WordOfEight(b: seq<Byte>)
    requires |b| == 8
    ensures Word(b) == Digits(b[0], b[1], b[2], b[3]) + 0x1_0000_0000 * Digits(b[4], b[5], b[6], b[7])
  {
    hide Word;
    WordOfFour(b[4..]);
    assert b[1..][1..] == b[2..] && b[2..][1..] == b[3..] && b[3..][1..] == b[4..];
    FirstDigit(b);
    FirstDigit(b[1..]);
    FirstDigit(b[2..]);
    FirstDigit(b[3..]);
    assert b[4..][0] == b[4];
  }

  lemma RestOfOne(result: nat, bytes: seq<Byte>)
    requires |bytes| == 1
    ensures EatRest(result, bytes) == EatOne(result, bytes[0])
  {
    hide EatOne;
  }

  /** Three single bytes. */
  function EatThree(result: nat, a: Byte, b: Byte, c: Byte): nat {
    EatOne(EatOne(EatOne(result, a), b), c)
  }

  lemma RestOfThree(result: nat, bytes: seq<Byte>)
    requires |bytes| == 3
    ensures EatRest(result, bytes) == EatThree(result, bytes[0], bytes[1], bytes[2])
  {
    hide EatOne, EatRest;
    var one := EatOne(result, bytes[0]);
    assert bytes[0..] == bytes && bytes[3..] == [];
    NextOne(result, bytes, 0);
    NextOne(one, bytes, 1);
    NextOne(EatOne(one, bytes[1]), bytes, 2);
    NothingToEat(EatThree(result, bytes[0], bytes[1], bytes[2]));
  }

  lemma RestOfSeven(result: nat, bytes: seq<Byte>)
    requires |bytes| == 7
    ensures EatRest(result, bytes) == EatThree(EatFour(result, bytes[..4]), bytes[4], bytes[5], bytes[6])
  {
    hide EatOne, EatFour, EatThree;
    RestOfThree(EatFour(result, bytes[..4]), bytes[4..]);
  }

  lemma RestOfEleven(result: nat, bytes: seq<Byte>)
    requires |bytes| == 11
    ensures EatRest(result, bytes) == EatThree(EatEight(result, bytes[..8]), bytes[8], bytes[9], bytes[10])
  {
    hide EatOne, EatEight, EatThree;
    RestOfThree(EatEight(result, bytes[..8]), bytes[8..]);
  }

  /** One complete block of four words, and a rest. */
  lemma OneBlock(s: Lanes, a: seq<Byte>, b: seq<Byte>, c: seq<Byte>, d: seq<Byte>, rest: seq<Byte>, lanes: Lanes)
    requires s == Start(0) && |a| == |b| == |c| == |d| == 8 && |rest| < 32
    requires ProcessSingle(s.s0, Word(a)) == lanes.s0 && ProcessSingle(s.s1, Word(b)) == lanes.s1
    requires ProcessSingle(s.s2, Word(c)) == lanes.s2 && ProcessSingle(s.s3, Word(d)) == lanes.s3
    ensures HashOf(0, a + b + c + d + rest) == MixBits(EatRest(Wrap(Converge(lanes) + 32 + |rest|), rest))
  {
    hide HashOf, Converge, EatRest, MixBits, ProcessSingle, Word, Process, Start, Wrap;
    BlockAndRest(a + b + c + d, rest);
    FourLanes(s, a, b, c, d);
  }

  lemma BlockAndRest(block: seq<Byte>, rest: seq<Byte>)
    requires |block| == 32 && |rest| < 32
    ensures HashOf(0, block + rest) == MixBits(EatRest(Wrap(Converge(Process(Start(0), block)) + 32 + |rest|), rest))
  {
    hide Start, Process, Converge, EatRest, MixBits, Absorb, Remainder;
    WrapFits(32 + |rest|);
    BlockFirst(Start(0), block, rest);
    ShortRest(Process(Start(0), block), rest);
  }

  lemma FourLanes(s: Lanes, a: seq<Byte>, b: seq<Byte>, c: seq<Byte>, d: seq<Byte>)
    requires |a| == |b| == |c| == |d| == 8
    ensures Process(s, a + b + c + d) == Lanes(ProcessSingle(s.s0, Word(a)), ProcessSingle(s.s1, Word(b)),
                                               ProcessSingle(s.s2, Word(c)), ProcessSingle(s.s3, Word(d)))
  {
    hide ProcessSingle, Word;
    Quarters(a, b, c, d);
  }

  lemma Quarters(a: seq<Byte>, b: seq<Byte>, c: seq<Byte>, d: seq<Byte>)
    requires |a| == |b| == |c| == |d| == 8
    ensures var block := a + b + c + d;
            block[0..8] == a && block[8..16] == b && block[16..24] == c && block[24..32] == d
  {
    var half := a + b;
    assert half[0..8] == a && half[8..16] == b;
    assert (half + c)[..16] == half && (half + c)[16..24] == c;
    var block := half + c + d;
    assert block[..24] == half + c;
    assert block[0..8] == block[..24][..16][0..8] && block[8..16] == block[..24][..16][8..16];
    assert block[16..24] == block[..24][16..24];
  }

  /** How the seed enters: the lanes start at fixed distances from it. */
  lemma StartOf(seed: nat)
    requires seed < U64_SIZE
    ensures var s := Start(seed);
            && s.s2 == seed && s.s0 < U64_SIZE && s.s1 < U64_SIZE && s.s3 < U64_SIZE
            && (s.s1 - seed) % U64_SIZE == PRIME2 && (s.s0 - s.s1) % U64_SIZE == PRIME1 && (seed - s.s3) % U64_SIZE == PRIME1
  {
  }

  // ----- the values -----

  lemma MixedEmpty()
    ensures MixBits(0x27D4EB2F165667C5) == 0xEF46DB3751D8E999
  {
    hide Bitwise, MixBits;
    assert Bitwise(Xor, 0x27D4EB2F165667C5, 0x0000000013EA7597) == 0x27D4EB2F05BC1252 by {
      XorWords(0x27, 0xD4, 0xEB, 0x2F, 0x16, 0x56, 0x67, 0xC5,
               0x00, 0x00, 0x00, 0x00, 0x13, 0xEA, 0x75, 0x97);
    }
    assert Bitwise(Xor, 0xBEB13DDA13C2ED4E, 0x00000005F589EED0) == 0xBEB13DDFE64B039E by {
      XorWords(0xBE, 0xB1, 0x3D, 0xDA, 0x13, 0xC2, 0xED, 0x4E,
               0x00, 0x00, 0x00, 0x05, 0xF5, 0x89, 0xEE, 0xD0);
    }
    assert Bitwise(Xor, 0xEF46DB37BE9E32AE, 0x00000000EF46DB37) == 0xEF46DB3751D8E999 by {
      XorWords(0xEF, 0x46, 0xDB, 0x37, 0xBE, 0x9E, 0x32, 0xAE,
               0x00, 0x00, 0x00, 0x00, 0xEF, 0x46, 0xDB, 0x37);
    }
    Mixed(0x27D4EB2F165667C5, 0x27D4EB2F05BC1252, 0xBEB13DDA13C2ED4E, 0xBEB13DDFE64B039E,
          0xEF46DB37BE9E32AE, 0xEF46DB3751D8E999);
  }

  lemma EmptyInput()
    ensures HashOf(0, []) == 0xEF46DB3751D8E999
  {
    hide MixBits, EatRest;
    ShortInputs(0, []);
    NothingToEat(0x27D4EB2F165667C5);
    MixedEmpty();
  }

  lemma MixedLetter()
    ensures MixBits(0xB86597E419D4D215) == 0xD24EC4F1A98C6E5B
  {
    hide Bitwise, MixBits;
    assert Bitwise(Xor, 0xB86597E419D4D215, 0x000000005C32CBF2) == 0xB86597E445E619E7 by {
      XorWords(0xB8, 0x65, 0x97, 0xE4, 0x19, 0xD4, 0xD2, 0x15,
               0x00, 0x00, 0x00, 0x00, 0x5C, 0x32, 0xCB, 0xF2);
    }
    assert Bitwise(Xor, 0xD7858A2670150B49, 0x00000006BC2C5133) == 0xD7858A20CC395A7A by {
      XorWords(0xD7, 0x85, 0x8A, 0x26, 0x70, 0x15, 0x0B, 0x49,
               0x00, 0x00, 0x00, 0x06, 0xBC, 0x2C, 0x51, 0x33);
    }
    assert Bitwise(Xor, 0xD24EC4F17BC2AAAA, 0x00000000D24EC4F1) == 0xD24EC4F1A98C6E5B by {
      XorWords(0xD2, 0x4E, 0xC4, 0xF1, 0x7B, 0xC2, 0xAA, 0xAA,
               0x00, 0x00, 0x00, 0x00, 0xD2, 0x4E, 0xC4, 0xF1);
    }
    Mixed(0xB86597E419D4D215, 0xB86597E445E619E7, 0xD7858A2670150B49, 0xD7858A20CC395A7A,
          0xD24EC4F17BC2AAAA, 0xD24EC4F1A98C6E5B);
  }

  lemma LetterEaten()
    ensures EatOne(0x27D4EB2F165667C6, 97) == 0xB86597E419D4D215
  {
    hide EatOne, Bitwise;
    assert Bitwise(Xor, 0x27D4EB2F165667C6, 0x17AD1CD776BD51A5) == 0x3079F7F860EB3663 by {
      XorWords(0x27, 0xD4, 0xEB, 0x2F, 0x16, 0x56, 0x67, 0xC6,
               0x17, 0xAD, 0x1C, 0xD7, 0x76, 0xBD, 0x51, 0xA5);
    }
    One(0x27D4EB2F165667C6, 97, 0x17AD1CD776BD51A5, 0x3079F7F860EB3663,
        0xCFBFC30759B31983, 0xB86597E419D4D215);
  }

  lemma OneLetter()
    ensures HashOf(0, Ascii("a")) == 0xD24EC4F1A98C6E5B
  {
    hide MixBits, EatRest, EatOne, Bitwise;
    var bytes := Ascii("a");
    ShortInputs(0, bytes);
    RestOfOne(0x27D4EB2F165667C6, bytes);
    LetterEaten();
    MixedLetter();
  }

  lemma SpammishWord0()
    ensures Word(Ascii("Nobody i")) == 0x692079646F626F4E
  {
    hide Word;
    assert Ascii("Nobody i") == [78, 111, 98, 111, 100, 121, 32, 105];
    WordOfEight(Ascii("Nobody i"));
  }

  lemma SpammishWord1()
    ensures Word(Ascii("nspects ")) == 0x207374636570736E
  {
    hide Word;
    assert Ascii("nspects ") == [110, 115, 112, 101, 99, 116, 115, 32];
    WordOfEight(Ascii("nspects "));
  }

  lemma SpammishWord2()
    ensures Word(Ascii("the spam")) == 0x6D61707320656874
  {
    hide Word;
    assert Ascii("the spam") == [116, 104, 101, 32, 115, 112, 97, 109];
    WordOfEight(Ascii("the spam"));
  }

  lemma SpammishWord3()
    ensures Word(Ascii("mish rep")) == 0x706572206873696D
  {
    hide Word;
    assert Ascii("mish rep") == [109, 105, 115, 104, 32, 114, 101, 112];
    WordOfEight(Ascii("mish rep"));
  }

  lemma SpammishLanes()
    ensures ProcessSingle(0x60EA27EEADC0B5D6, Word(Ascii("Nobody i"))) == 0x37245127A4067E4B
    ensures ProcessSingle(0xC2B2AE3D27D4EB4F, Word(Ascii("nspects "))) == 0x1B302B0A818F92CF
    ensures ProcessSingle(0, Word(Ascii("the spam"))) == 0xCD62D843D0580FCA
    ensures ProcessSingle(0x61C8864E7A143579, Word(Ascii("mish rep"))) == 0x1C16E43EF2142A4A
  {
    hide ProcessSingle, Word, Ascii;
    SpammishWord0();
    SpammishWord1();
    SpammishWord2();
    SpammishWord3();
    Single(0x60EA27EEADC0B5D6, 0x692079646F626F4E, 0x67DA963B77E5A8E8,
           0xBBF2D47433ED4B1D, 0x37245127A4067E4B);
    Single(0xC2B2AE3D27D4EB4F, 0x207374636570736E, 0x81AB3EF308968441,
           0x844B4220C0D59F79, 0x1B302B0A818F92CF);
    Single(0x0000000000000000, 0x6D61707320656874, 0x0A6264CC423DB7CC,
           0x211EDBE605313266, 0xCD62D843D0580FCA);
    Single(0x61C8864E7A143579, 0x706572206873696D, 0xE08CC7CC90BCCD1C,
           0x485E668E704663E6, 0x1C16E43EF2142A4A);
  }

  lemma SpammishSum()
    ensures Wrap(RotateLeft(0x37245127A4067E4B, 1) + RotateLeft(0x1B302B0A818F92CF, 7)
                 + RotateLeft(0xCD62D843D0580FCA, 12) + RotateLeft(0x1C16E43EF2142A4A, 18)) == 0xC4DE2CE639FB8154
  {
    hide RotateLeft;
    Sum(Lanes(0x37245127A4067E4B, 0x1B302B0A818F92CF, 0xCD62D843D0580FCA, 0x1C16E43EF2142A4A),
        0x6E48A24F480CFC96, 0x98158540C7C9678D, 0x2D843D0580FCACD6, 0x90FBC850A928705B, 0xC4DE2CE639FB8154);
  }

  lemma SpammishFold0()
    ensures FoldLane(0xC4DE2CE639FB8154, 0x37245127A4067E4B) == 0x30D40DDD00AEA144
  {
    hide FoldLane, ProcessSingle, Bitwise;
    Single(0x0000000000000000, 0x37245127A4067E4B, 0xBF0E534A970BD225,
           0x4B85E912DF8729A5, 0x7790FF1F7A9A2803);
    assert Bitwise(Xor, 0xC4DE2CE639FB8154, 0x7790FF1F7A9A2803) == 0xB34ED3F94361A957 by {
      XorWords(0xC4, 0xDE, 0x2C, 0xE6, 0x39, 0xFB, 0x81, 0x54,
               0x77, 0x90, 0xFF, 0x1F, 0x7A, 0x9A, 0x28, 0x03);
    }
    Fold(0xC4DE2CE639FB8154, 0x37245127A4067E4B, 0x7790FF1F7A9A2803,
         0xB34ED3F94361A957, 0x30D40DDD00AEA144);
  }

  lemma SpammishFold1()
    ensures FoldLane(0x30D40DDD00AEA144, 0x1B302B0A818F92CF) == 0xE5A1F095BF498698
  {
    hide FoldLane, ProcessSingle, Bitwise;
    Single(0x0000000000000000, 0x1B302B0A818F92CF, 0x40BCC4C2E37E52E1,
           0x71BF2970A05E6261, 0xDECED6C0BF716B27);
    assert Bitwise(Xor, 0x30D40DDD00AEA144, 0xDECED6C0BF716B27) == 0xEE1ADB1DBFDFCA63 by {
      XorWords(0x30, 0xD4, 0x0D, 0xDD, 0x00, 0xAE, 0xA1, 0x44,
               0xDE, 0xCE, 0xD6, 0xC0, 0xBF, 0x71, 0x6B, 0x27);
    }
    Fold(0x30D40DDD00AEA144, 0x1B302B0A818F92CF, 0xDECED6C0BF716B27,
         0xEE1ADB1DBFDFCA63, 0xE5A1F095BF498698);
  }

  lemma SpammishFold2()
    ensures FoldLane(0xE5A1F095BF498698, 0xCD62D843D0580FCA) == 0xF9CEE721E748096D
  {
    hide FoldLane, ProcessSingle, Bitwise;
    Single(0x0000000000000000, 0xCD62D843D0580FCA, 0x1917FFA4FAF34D56,
           0x7D79A6AB0C8BFFD2, 0x70073EB805759BBE);
    assert Bitwise(Xor, 0xE5A1F095BF498698, 0x70073EB805759BBE) == 0x95A6CE2DBA3C1D26 by {
      XorWords(0xE5, 0xA1, 0xF0, 0x95, 0xBF, 0x49, 0x86, 0x98,
               0x70, 0x07, 0x3E, 0xB8, 0x05, 0x75, 0x9B, 0xBE);
    }
    Fold(0xE5A1F095BF498698, 0xCD62D843D0580FCA, 0x70073EB805759BBE,
         0x95A6CE2DBA3C1D26, 0xF9CEE721E748096D);
  }

  lemma SpammishFold3()
    ensures FoldLane(0xF9CEE721E748096D, 0x1C16E43EF2142A4A) == 0x84F22C421A11A8B5
  {
    hide FoldLane, ProcessSingle, Bitwise;
    Single(0x0000000000000000, 0x1C16E43EF2142A4A, 0x2898226B8252FAD6,
           0xC1297D6B144C1135, 0xC1CBBAE50E57E4F3);
    assert Bitwise(Xor, 0xF9CEE721E748096D, 0xC1CBBAE50E57E4F3) == 0x38055DC4E91FED9E by {
      XorWords(0xF9, 0xCE, 0xE7, 0x21, 0xE7, 0x48, 0x09, 0x6D,
               0xC1, 0xCB, 0xBA, 0xE5, 0x0E, 0x57, 0xE4, 0xF3);
    }
    Fold(0xF9CEE721E748096D, 0x1C16E43EF2142A4A, 0xC1CBBAE50E57E4F3,
         0x38055DC4E91FED9E, 0x84F22C421A11A8B5);
  }

  lemma SpammishFolded()
    ensures Converge(Lanes(0x37245127A4067E4B, 0x1B302B0A818F92CF,
                           0xCD62D843D0580FCA, 0x1C16E43EF2142A4A)) == 0x84F22C421A11A8B5
  {
    hide FoldLane, RotateLeft;
    SpammishSum();
    SpammishFold0();
    SpammishFold1();
    SpammishFold2();
    SpammishFold3();
  }

  lemma SpammishPiece(piece: seq<Byte>)
    requires piece == [101, 116, 105, 116]
    ensures EatFour(0x84F22C421A11A8DC, piece) == 0x9FCA0F5D0AAA110F
  {
    hide EatFour, ProcessSingle, Bitwise, Word;
    assert Word(piece) == 0x0000000074697465 by {
      WordOfFour(piece);
    }
    assert Bitwise(Xor, 0x84F22C421A11A8DC, 0xE9863933EB2B1343) == 0x6D741571F13ABB9F by {
      XorWords(0x84, 0xF2, 0x2C, 0x42, 0x1A, 0x11, 0xA8, 0xDC,
               0xE9, 0x86, 0x39, 0x33, 0xEB, 0x2B, 0x13, 0x43);
    }
    Four(0x84F22C421A11A8DC, piece, 0xE9863933EB2B1343, 0x6D741571F13ABB9F,
         0xB8F89D5DCFB6BA0A, 0x9FCA0F5D0AAA110F);
  }

  lemma SpammishBytes()
    ensures EatThree(0x9FCA0F5D0AAA110F, 105, 111, 110) == 0x1D0A47483B37CC24
  {
    hide EatOne, Bitwise;
    assert Bitwise(Xor, 0x9FCA0F5D0AAA110F, 0x5654765029708FCD) == 0xC99E790D23DA9EC2 by {
      XorWords(0x9F, 0xCA, 0x0F, 0x5D, 0x0A, 0xAA, 0x11, 0x0F,
               0x56, 0x54, 0x76, 0x50, 0x29, 0x70, 0x8F, 0xCD);
    }
    One(0x9FCA0F5D0AAA110F, 105, 0x5654765029708FCD, 0xC99E790D23DA9EC2,
        0xF3C8691ED4F6164C, 0x769671546F21BA14);
    assert Bitwise(Xor, 0x769671546F21BA14, 0x4551F96AAF76FE6B) == 0x33C7883EC057447F by {
      XorWords(0x76, 0x96, 0x71, 0x54, 0x6F, 0x21, 0xBA, 0x14,
               0x45, 0x51, 0xF9, 0x6A, 0xAF, 0x76, 0xFE, 0x6B);
    }
    One(0x769671546F21BA14, 111, 0x4551F96AAF76FE6B, 0x33C7883EC057447F,
        0x3C41F602BA23F99E, 0xEAE9B643C5F94E52);
    assert Bitwise(Xor, 0xEAE9B643C5F94E52, 0x1D7D0E3B992096A6) == 0xF794B8785CD9D8F4 by {
      XorWords(0xEA, 0xE9, 0xB6, 0x43, 0xC5, 0xF9, 0x4E, 0x52,
               0x1D, 0x7D, 0x0E, 0x3B, 0x99, 0x20, 0x96, 0xA6);
    }
    One(0xEAE9B643C5F94E52, 110, 0x1D7D0E3B992096A6, 0xF794B8785CD9D8F4,
        0xA5C3C2E6CEC7A7BC, 0x1D0A47483B37CC24);
  }

  lemma SpammishMixed()
    ensures MixBits(0x1D0A47483B37CC24) == 0xFBCEA83C8A378BF1
  {
    hide Bitwise, MixBits;
    assert Bitwise(Xor, 0x1D0A47483B37CC24, 0x000000000E8523A4) == 0x1D0A474835B2EF80 by {
      XorWords(0x1D, 0x0A, 0x47, 0x48, 0x3B, 0x37, 0xCC, 0x24,
               0x00, 0x00, 0x00, 0x00, 0x0E, 0x85, 0x23, 0xA4);
    }
    assert Bitwise(Xor, 0x5F0214BEAA126880, 0x00000002F810A5F5) == 0x5F0214BC5202CD75 by {
      XorWords(0x5F, 0x02, 0x14, 0xBE, 0xAA, 0x12, 0x68, 0x80,
               0x00, 0x00, 0x00, 0x02, 0xF8, 0x10, 0xA5, 0xF5);
    }
    assert Bitwise(Xor, 0xFBCEA83C71F923CD, 0x00000000FBCEA83C) == 0xFBCEA83C8A378BF1 by {
      XorWords(0xFB, 0xCE, 0xA8, 0x3C, 0x71, 0xF9, 0x23, 0xCD,
               0x00, 0x00, 0x00, 0x00, 0xFB, 0xCE, 0xA8, 0x3C);
    }
    Mixed(0x1D0A47483B37CC24, 0x1D0A474835B2EF80, 0x5F0214BEAA126880, 0x5F0214BC5202CD75,
          0xFBCEA83C71F923CD, 0xFBCEA83C8A378BF1);
  }

  lemma Spammish()
    ensures HashOf(0, Ascii("Nobody i") + Ascii("nspects ") + Ascii("the spam") + Ascii("mish rep") + Ascii("etition"))
            == 0xFBCEA83C8A378BF1
  {
    hide HashOf, Converge, EatRest, MixBits, EatFour, EatThree, ProcessSingle, Word;
    var rest := Ascii("etition");
    SpammishLanes();
    OneBlock(Start(0), Ascii("Nobody i"), Ascii("nspects "), Ascii("the spam"), Ascii("mish rep"), rest,
             Lanes(0x37245127A4067E4B, 0x1B302B0A818F92CF, 0xCD62D843D0580FCA, 0x1C16E43EF2142A4A));
    SpammishFolded();
    RestOfSeven(0x84F22C421A11A8DC, rest);
    SpammishPiece(rest[..4]);
    SpammishBytes();
    SpammishMixed();
  }

  lemma LazyDogWord0()
    ensures Word(Ascii("The quic")) == 0x6369757120656854
  {
    hide Word;
    assert Ascii("The quic") == [84, 104, 101, 32, 113, 117, 105, 99];
    WordOfEight(Ascii("The quic"));
  }

  lemma LazyDogWord1()
    ensures Word(Ascii("k brown ")) == 0x206E776F7262206B
  {
    hide Word;
    assert Ascii("k brown ") == [107, 32, 98, 114, 111, 119, 110, 32];
    WordOfEight(Ascii("k brown "));
  }

  lemma LazyDogWord2()
    ensures Word(Ascii("fox jump")) == 0x706D756A20786F66
  {
    hide Word;
    assert Ascii("fox jump") == [102, 111, 120, 32, 106, 117, 109, 112];
    WordOfEight(Ascii("fox jump"));
  }

  lemma LazyDogWord3()
    ensures Word(Ascii("s over t")) == 0x74207265766F2073
  {
    hide Word;
    assert Ascii("s over t") == [115, 32, 111, 118, 101, 114, 32, 116];
    WordOfEight(Ascii("s over t"));
  }

  lemma LazyDogLanes()
    ensures ProcessSingle(0x60EA27EEADC0B5D6, Word(Ascii("The quic"))) == 0x1BF961D28F3A149D
    ensures ProcessSingle(0xC2B2AE3D27D4EB4F, Word(Ascii("k brown "))) == 0x0BD18AA2EE4D901F
    ensures ProcessSingle(0, Word(Ascii("fox jump"))) == 0x9986F59CC4FE6078
    ensures ProcessSingle(0x61C8864E7A143579, Word(Ascii("s over t"))) == 0x79F80495CC7EBC76
  {
    hide ProcessSingle, Word, Ascii;
    LazyDogWord0();
    LazyDogWord1();
    LazyDogWord2();
    LazyDogWord3();
    Single(0x60EA27EEADC0B5D6, 0x6369757120656854, 0x325D7977F56103C2,
           0xFAB081E1192EBCBB, 0x1BF961D28F3A149D);
    Single(0xC2B2AE3D27D4EB4F, 0x206E776F7262206B, 0xA2F4F753AD7B2554,
           0xD6BD92AA517A7BA9, 0x0BD18AA2EE4D901F);
    Single(0x0000000000000000, 0x706D756A20786F66, 0xECBAC3915DE5027A,
           0xAEF2813D765D61C8, 0x9986F59CC4FE6078);
    Single(0x61C8864E7A143579, 0x74207265766F2073, 0xA85EDEB56D64C9F6,
           0xB6B264FB542F6F5A, 0x79F80495CC7EBC76);
  }

  lemma LazyDogSum()
    ensures Wrap(RotateLeft(0x1BF961D28F3A149D, 1) + RotateLeft(0x0BD18AA2EE4D901F, 7)
                 + RotateLeft(0x9986F59CC4FE6078, 12) + RotateLeft(0x79F80495CC7EBC76, 18)) == 0xA26913671D1DAA37
  {
    hide RotateLeft;
    Sum(Lanes(0x1BF961D28F3A149D, 0x0BD18AA2EE4D901F, 0x9986F59CC4FE6078, 0x79F80495CC7EBC76),
        0x37F2C3A51E74293A, 0xE8C5517726C80F85, 0x6F59CC4FE6078998, 0x125731FAF1D9E7E0, 0xA26913671D1DAA37);
  }

  lemma LazyDogFold0()
    ensures FoldLane(0xA26913671D1DAA37, 0x1BF961D28F3A149D) == 0x739083290851E7D7
  {
    hide FoldLane, ProcessSingle, Bitwise;
    Single(0x0000000000000000, 0x1BF961D28F3A149D, 0x8EF58E1A80DC7B73,
           0x406E3DB9C77AC70D, 0xE2C7D07A8CBE39DB);
    assert Bitwise(Xor, 0xA26913671D1DAA37, 0xE2C7D07A8CBE39DB) == 0x40AEC31D91A393EC by {
      XorWords(0xA2, 0x69, 0x13, 0x67, 0x1D, 0x1D, 0xAA, 0x37,
               0xE2, 0xC7, 0xD0, 0x7A, 0x8C, 0xBE, 0x39, 0xDB);
    }
    Fold(0xA26913671D1DAA37, 0x1BF961D28F3A149D, 0xE2C7D07A8CBE39DB,
         0x40AEC31D91A393EC, 0x739083290851E7D7);
  }

  lemma LazyDogFold1()
    ensures FoldLane(0x739083290851E7D7, 0x0BD18AA2EE4D901F) == 0xCD0C5C927E433BF7
  {
    hide FoldLane, ProcessSingle, Bitwise;
    Single(0x0000000000000000, 0x0BD18AA2EE4D901F, 0xD526EB9BCFE7EE91,
           0xE7F3F748EA9375CD, 0x6C4239D9B2E5E11B);
    assert Bitwise(Xor, 0x739083290851E7D7, 0x6C4239D9B2E5E11B) == 0x1FD2BAF0BAB406CC by {
      XorWords(0x73, 0x90, 0x83, 0x29, 0x08, 0x51, 0xE7, 0xD7,
               0x6C, 0x42, 0x39, 0xD9, 0xB2, 0xE5, 0xE1, 0x1B);
    }
    Fold(0x739083290851E7D7, 0x0BD18AA2EE4D901F, 0x6C4239D9B2E5E11B,
         0x1FD2BAF0BAB406CC, 0xCD0C5C927E433BF7);
  }

  lemma LazyDogFold2()
    ensures FoldLane(0xCD0C5C927E433BF7, 0x9986F59CC4FE6078) == 0x962F3F76B777EA40
  {
    hide FoldLane, ProcessSingle, Bitwise;
    Single(0x0000000000000000, 0x9986F59CC4FE6078, 0x65912428786DED08,
           0x3C36F68432C89214, 0xBD41959F8764D08C);
    assert Bitwise(Xor, 0xCD0C5C927E433BF7, 0xBD41959F8764D08C) == 0x704DC90DF927EB7B by {
      XorWords(0xCD, 0x0C, 0x5C, 0x92, 0x7E, 0x43, 0x3B, 0xF7,
               0xBD, 0x41, 0x95, 0x9F, 0x87, 0x64, 0xD0, 0x8C);
    }
    Fold(0xCD0C5C927E433BF7, 0x9986F59CC4FE6078, 0xBD41959F8764D08C,
         0x704DC90DF927EB7B, 0x962F3F76B777EA40);
  }

  lemma LazyDogFold3()
    ensures FoldLane(0x962F3F76B777EA40, 0x79F80495CC7EBC76) == 0x9007C00F586BFAF0
  {
    hide FoldLane, ProcessSingle, Bitwise;
    Single(0x0000000000000000, 0x79F80495CC7EBC76, 0x424AB0BA7DD47A6A,
           0x3EEA3D352125585D, 0xBF6114A960C9FB0B);
    assert Bitwise(Xor, 0x962F3F76B777EA40, 0xBF6114A960C9FB0B) == 0x294E2BDFD7BE114B by {
      XorWords(0x96, 0x2F, 0x3F, 0x76, 0xB7, 0x77, 0xEA, 0x40,
               0xBF, 0x61, 0x14, 0xA9, 0x60, 0xC9, 0xFB, 0x0B);
    }
    Fold(0x962F3F76B777EA40, 0x79F80495CC7EBC76, 0xBF6114A960C9FB0B,
         0x294E2BDFD7BE114B, 0x9007C00F586BFAF0);
  }

  lemma LazyDogFolded()
    ensures Converge(Lanes(0x1BF961D28F3A149D, 0x0BD18AA2EE4D901F,
                           0x9986F59CC4FE6078, 0x79F80495CC7EBC76)) == 0x9007C00F586BFAF0
  {
    hide FoldLane, RotateLeft;
    LazyDogSum();
    LazyDogFold0();
    LazyDogFold1();
    LazyDogFold2();
    LazyDogFold3();
  }

  lemma LazyDogPiece(piece: seq<Byte>)
    requires piece == [104, 101, 32, 108, 97, 122, 121, 32]
    ensures EatEight(0x9007C00F586BFB1B, piece) == 0x16439AFBB973B9CE
  {
    hide EatEight, ProcessSingle, Bitwise, Word;
    assert Word(piece) == 0x20797A616C206568 by {
      WordOfEight(piece);
    }
    Single(0x0000000000000000, 0x20797A616C206568, 0xD3EF8660ED35C318,
           0x769AE18C69F7C330, 0xAF785FB17EBBCE50);
    assert Bitwise(Xor, 0x9007C00F586BFB1B, 0xAF785FB17EBBCE50) == 0x3F7F9FBE26D0354B by {
      XorWords(0x90, 0x07, 0xC0, 0x0F, 0x58, 0x6B, 0xFB, 0x1B,
               0xAF, 0x78, 0x5F, 0xB1, 0x7E, 0xBB, 0xCE, 0x50);
    }
    Eight(0x9007C00F586BFB1B, piece, 0xAF785FB17EBBCE50, 0x3F7F9FBE26D0354B,
          0xF13681AA59FBFCFD, 0x16439AFBB973B9CE);
  }

  lemma LazyDogBytes()
    ensures EatThree(0x16439AFBB973B9CE, 100, 111, 103) == 0xBCFB33FF6EE4F80C
  {
    hide EatOne, Bitwise;
    assert Bitwise(Xor, 0x16439AFBB973B9CE, 0x8F2BDE64B9C088F4) == 0x9968449F00B3313A by {
      XorWords(0x16, 0x43, 0x9A, 0xFB, 0xB9, 0x73, 0xB9, 0xCE,
               0x8F, 0x2B, 0xDE, 0x64, 0xB9, 0xC0, 0x88, 0xF4);
    }
    One(0x16439AFBB973B9CE, 100, 0x8F2BDE64B9C088F4, 0x9968449F00B3313A,
        0x4224F8059989D4CB, 0xF298D68986F0650D);
    assert Bitwise(Xor, 0xF298D68986F0650D, 0x4551F96AAF76FE6B) == 0xB7C92FE329869B66 by {
      XorWords(0xF2, 0x98, 0xD6, 0x89, 0x86, 0xF0, 0x65, 0x0D,
               0x45, 0x51, 0xF9, 0x6A, 0xAF, 0x76, 0xFE, 0x6B);
    }
    One(0xF298D68986F0650D, 111, 0x4551F96AAF76FE6B, 0xB7C92FE329869B66,
        0x497F194C34DB35BE, 0xD42FD768E36B4332);
    assert Bitwise(Xor, 0xD42FD768E36B4332, 0x06AA9FF1FCC3C043) == 0xD28548991FA88371 by {
      XorWords(0xD4, 0x2F, 0xD7, 0x68, 0xE3, 0x6B, 0x43, 0x32,
               0x06, 0xAA, 0x9F, 0xF1, 0xFC, 0xC3, 0xC0, 0x43);
    }
    One(0xD42FD768E36B4332, 103, 0x06AA9FF1FCC3C043, 0xD28548991FA88371,
        0x2A44C8FD441B8E94, 0xBCFB33FF6EE4F80C);
  }

  lemma LazyDogMixed()
    ensures MixBits(0xBCFB33FF6EE4F80C) == 0x0B242D361FDA71BC
  {
    hide Bitwise, MixBits;
    assert Bitwise(Xor, 0xBCFB33FF6EE4F80C, 0x000000005E7D99FF) == 0xBCFB33FF309961F3 by {
      XorWords(0xBC, 0xFB, 0x33, 0xFF, 0x6E, 0xE4, 0xF8, 0x0C,
               0x00, 0x00, 0x00, 0x00, 0x5E, 0x7D, 0x99, 0xFF);
    }
    assert Bitwise(Xor, 0xF0116B34EE7B4AFD, 0x00000007808B59A7) == 0xF0116B336EF0135A by {
      XorWords(0xF0, 0x11, 0x6B, 0x34, 0xEE, 0x7B, 0x4A, 0xFD,
               0x00, 0x00, 0x00, 0x07, 0x80, 0x8B, 0x59, 0xA7);
    }
    assert Bitwise(Xor, 0x0B242D3614FE5C8A, 0x000000000B242D36) == 0x0B242D361FDA71BC by {
      XorWords(0x0B, 0x24, 0x2D, 0x36, 0x14, 0xFE, 0x5C, 0x8A,
               0x00, 0x00, 0x00, 0x00, 0x0B, 0x24, 0x2D, 0x36);
    }
    Mixed(0xBCFB33FF6EE4F80C, 0xBCFB33FF309961F3, 0xF0116B34EE7B4AFD, 0xF0116B336EF0135A,
          0x0B242D3614FE5C8A, 0x0B242D361FDA71BC);
  }

  lemma LazyDog()
    ensures HashOf(0, Ascii("The quic") + Ascii("k brown ") + Ascii("fox jump") + Ascii("s over t")
                      + Ascii("he lazy dog"))
            == 0x0B242D361FDA71BC
  {
    hide HashOf, Converge, EatRest, MixBits, EatEight, EatThree, ProcessSingle, Word;
    var rest := Ascii("he lazy dog");
    LazyDogLanes();
    OneBlock(Start(0), Ascii("The quic"), Ascii("k brown "), Ascii("fox jump"), Ascii("s over t"), rest,
             Lanes(0x1BF961D28F3A149D, 0x0BD18AA2EE4D901F, 0x9986F59CC4FE6078, 0x79F80495CC7EBC76));
    LazyDogFolded();
    RestOfEleven(0x9007C00F586BFB1B, rest);
    LazyDogPiece(rest[..8]);
    LazyDogBytes();
    LazyDogMixed();
  }
}
