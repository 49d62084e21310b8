/** Machine words as numbers: the bit-level operations of the sketches on unsigned integers.
    A word of n bits is a natural number below Pow2(n); w >> n is w / Pow2(n), and w << n is
    w * Pow2(n) wherever no bit is shifted out. */
module Words {

  const U32_SIZE := 0x1_0000_0000
  const U64_SIZE := 0x1_0000_0000_0000_0000

  /** The value of a sum or product of 32-bit numbers. */
  function Low32(x: nat): nat {
    x % U32_SIZE
  }

  /** 1 << n */
  function Pow2(n: nat): (p: nat)
    ensures p >= 1
  {
    if n == 0 then 1 else 2 * Pow2(n - 1)
  }

  lemma {:induction false} Pow2Add(m: nat, n: nat)
    ensures Pow2(m + n) == Pow2(m) * Pow2(n)
  {
    if m > 0 {
      Pow2Add(m - 1, n);
      assert Pow2(m + n) == 2 * Pow2(m - 1 + n);
      assert 2 * (Pow2(m - 1) * Pow2(n)) == (2 * Pow2(m - 1)) * Pow2(n);
    }
  }

  lemma {:induction false} Pow2Mono(m: nat, n: nat)
    requires m <= n
    ensures Pow2(m) <= Pow2(n)
    ensures m < n ==> 2 * Pow2(m) <= Pow2(n)
  {
    if m < n {
      Pow2Mono(m, n - 1);
    }
  }

  lemma Pow2Values()
    ensures Pow2(2) == 4 && Pow2(3) == 8 && Pow2(4) == 16 && Pow2(5) == 32 && Pow2(6) == 64 && Pow2(8) == 256
    ensures Pow2(12) == 4096 && Pow2(16) == 65536 && Pow2(26) == 0x400_0000
    ensures Pow2(32) == U32_SIZE && Pow2(64) == U64_SIZE
  {
    assert Pow2(8) == 256;
    assert Pow2(16) == 65536;
    assert Pow2(24) == 0x100_0000;
    assert Pow2(32) == U32_SIZE;
    assert Pow2(40) == 0x100_0000_0000;
    assert Pow2(48) == 0x1_0000_0000_0000;
    assert Pow2(56) == 0x100_0000_0000_0000;
  }

  /** Is the bit of weight Pow2(i) set? */
  predicate Bit(w: nat, i: nat) {
    if i == 0 then w % 2 == 1 else Bit(w / 2, i - 1)
  }

  datatype Op = And | Or | Xor

  predicate Gate(op: Op, a: bool, b: bool) {
    match op
    case And => a && b
    case Or => a || b
    case Xor => a != b
  }

  /** The bitwise operators &, | and ^. */
  function Bitwise(op: Op, x: nat, y: nat): nat
    decreases x + y
  {
    if x == 0 && y == 0 then 0
    else (if Gate(op, x % 2 == 1, y % 2 == 1) then 1 else 0) + 2 * Bitwise(op, x / 2, y / 2)
  }

  lemma {:induction false} BitwiseBit(op: Op, x: nat, y: nat, i: nat)
    ensures Bit(Bitwise(op, x, y), i) == Gate(op, Bit(x, i), Bit(y, i))
    decreases i
  {
    if x == 0 && y == 0 {
      ZeroBits(i);
    } else if i > 0 {
      assert Bitwise(op, x, y) / 2 == Bitwise(op, x / 2, y / 2);
      BitwiseBit(op, x / 2, y / 2, i - 1);
    }
  }

  lemma {:induction false} BitwiseFits(op: Op, x: nat, y: nat, n: nat)
    requires x < Pow2(n) && y < Pow2(n)
    ensures Bitwise(op, x, y) < Pow2(n)
    decreases n
  {
    if n > 0 && (x != 0 || y != 0) {
      BitwiseFits(op, x / 2, y / 2, n - 1);
    }
  }

  lemma {:induction false} ZeroBits(i: nat)
    ensures !Bit(0, i)
  {
    if i > 0 {
      ZeroBits(i - 1);
    }
  }

  /** A nonzero word has a bit set, and every set bit of an n-bit word is below n. */
  lemma {:induction false} BitBelow(w: nat, i: nat, n: nat)
    requires w < Pow2(n) && Bit(w, i)
    ensures i < n
  {
    if n == 0 {
      ZeroBits(i);
    } else if i > 0 {
      BitBelow(w / 2, i - 1, n - 1);
    }
  }

  /** w << n, no bit being shifted out. */
  function Shl(w: nat, n: nat): nat {
    if n == 0 then w else 2 * Shl(w, n - 1)
  }

  /** w >> n */
  function Shr(w: nat, n: nat): nat {
    if n == 0 then w else Shr(w / 2, n - 1)
  }

  lemma {:induction false} ShlIsMul(w: nat, n: nat)
    ensures Shl(w, n) == w * Pow2(n)
  {
    if n > 0 {
      ShlIsMul(w, n - 1);
      assert 2 * (w * Pow2(n - 1)) == w * (2 * Pow2(n - 1));
    }
  }

  lemma {:induction false} ShrIsDiv(w: nat, n: nat)
    ensures Shr(w, n) == w / Pow2(n)
  {
    if n > 0 {
      ShrIsDiv(w / 2, n - 1);
      DivDiv(w, 2, Pow2(n - 1));
    }
  }

  lemma {:induction false} BitShl(w: nat, n: nat, i: nat)
    ensures Bit(Shl(w, n), i) == (i >= n && Bit(w, i - n))
    decreases n
  {
    if n > 0 && i > 0 {
      BitShl(w, n - 1, i - 1);
    }
  }

  lemma {:induction false} BitShr(w: nat, n: nat, i: nat)
    ensures Bit(Shr(w, n), i) == Bit(w, i + n)
    decreases n
  {
    if n > 0 {
      BitShr(w / 2, n - 1, i);
    }
  }

  lemma MulDistr(a: int, b: int, q: int, r: int)
    ensures a * (b * q + r) == (a * b) * q + a * r
  {
    assert a * (b * q) == (a * b) * q;
  }

  lemma DivDiv(w: nat, a: nat, b: nat)
    requires a > 0 && b > 0
    ensures a * b > 0 && w / (a * b) == (w / a) / b
  {
    var q, r := w / a, w % a;
    var q', r' := q / b, q % b;
    MulDistr(a, b, q', r');
    MulMono(a, r' + 1, b);
    MulDistr(a, 1, r', 1);
    assert w == (a * b) * q' + (a * r' + r);
    DivUnique(w, a * b, q', a * r' + r);
  }

  lemma DivUnique(w: int, d: nat, q: int, r: int)
    requires d > 0 && w == d * q + r && 0 <= r < d
    ensures w / d == q && w % d == r
  {
    var q0, r0 := w / d, w % d;
    assert d * (q0 + 1) == d * q0 + d;
    assert d * (q + 1) == d * q + d;
    if q > q0 {
      MulMono(d, q0 + 1, q);
    } else if q < q0 {
      MulMono(d, q + 1, q0);
    }
  }

  lemma MulMono(d: nat, a: int, b: int)
    requires a <= b
    ensures d * a <= d * b
  {
    assert d * b - d * a == d * (b - a);
  }

  /** Pow2(n) - 1 is the mask of the n low bits. */
  lemma {:induction false} BitMask(n: nat, i: nat)
    ensures Bit(Pow2(n) - 1, i) == (i < n)
    decreases n
  {
    if n == 0 {
      ZeroBits(i);
    } else {
      assert (Pow2(n) - 1) / 2 == Pow2(n - 1) - 1;
      if i > 0 {
        BitMask(n - 1, i - 1);
      }
    }
  }

  lemma {:induction false} AndMask(w: nat, n: nat)
    ensures Bitwise(And, w, Pow2(n) - 1) == w % Pow2(n)
    decreases n
  {
    if n == 0 {
      hide Bitwise;
      AndNothing(w);
    } else {
      assert Pow2(n) == 2 * Pow2(n - 1);
      hide Bitwise, Pow2;
      AndMask(w / 2, n - 1);
      AndOneBit(w, Pow2(n - 1));
      DoubleRemainder(w, Pow2(n - 1));
    }
  }

  lemma AndOneBit(x: nat, p: nat)
    requires p > 0
    ensures Bitwise(And, x, 2 * p - 1) == 2 * Bitwise(And, x / 2, p - 1) + x % 2
  {
  }

  lemma DoubleRemainder(w: nat, d: nat)
    requires d > 0
    ensures w % (2 * d) == 2 * (w / 2 % d) + w % 2
  {
    var q, r := w / 2 / d, w / 2 % d;
    MulDistr(2, d, q, r);
    DivUnique(w, 2 * d, q, 2 * r + w % 2);
  }

  lemma {:induction false} BitOne(n: nat, i: nat)
    ensures Bit(Pow2(n), i) == (i == n)
    decreases n
  {
    if n == 0 {
      if i > 0 {
        ZeroBits(i - 1);
      }
    } else if i > 0 {
      BitOne(n - 1, i - 1);
    }
  }

  /** Words with the same bits are equal. */
  lemma {:induction false} SameBits(x: nat, y: nat)
    requires forall i: nat :: Bit(x, i) == Bit(y, i)
    ensures x == y
    decreases x + y
  {
    if x != 0 || y != 0 {
      assert Bit(x, 0) == Bit(y, 0);
      forall i: nat ensures Bit(x / 2, i) == Bit(y / 2, i) {
        assert Bit(x, i + 1) == Bit(y, i + 1);
      }
      SameBits(x / 2, y / 2);
    }
  }

  /** count_trailing_zeros: the least set bit of a nonzero word. */
  function TrailingZeros(w: nat): (t: nat)
    requires w > 0
    ensures Bit(w, t)
    ensures Pow2(t) <= w
  {
    if w % 2 == 1 then 0 else 1 + TrailingZeros(w / 2)
  }

  lemma {:induction false} TrailingZerosLeast(w: nat, i: nat)
    requires w > 0 && i < TrailingZeros(w)
    ensures !Bit(w, i)
  {
    if i > 0 {
      TrailingZerosLeast(w / 2, i - 1);
    }
  }

  /** Erasing a set bit by ^ leaves a smaller word. */
  lemma {:induction false} EraseBit(w: nat, i: nat)
    requires Bit(w, i)
    ensures w >= Pow2(i) && Bitwise(Xor, w, Pow2(i)) == w - Pow2(i)
    decreases i
  {
    if i > 0 {
      EraseBit(w / 2, i - 1);
    } else {
      assert Bitwise(Xor, w, 1) == 2 * Bitwise(Xor, w / 2, 0);
      XorZero(w / 2);
    }
  }

  lemma {:induction false} XorZero(w: nat)
    ensures Bitwise(Xor, w, 0) == w && Bitwise(Or, w, 0) == w
  {
    if w > 0 {
      XorZero(w / 2);
    }
  }

  /** Or-ing bits in above a word that is too short to reach them adds them. */
  lemma {:induction false} OrAbove(x: nat, y: nat, n: nat)
    requires x < Pow2(n)
    ensures Bitwise(Or, x, Shl(y, n)) == x + Shl(y, n)
    decreases n
  {
    if n == 0 {
      OrZero(y);
    } else if x > 0 || Shl(y, n) > 0 {
      OrAbove(x / 2, y, n - 1);
    }
  }

  lemma {:induction false} OrZero(w: nat)
    ensures Bitwise(Or, 0, w) == w
  {
    if w > 0 {
      OrZero(w / 2);
    }
  }

  lemma {:induction false} AndNothing(w: nat)
    ensures Bitwise(And, w, 0) == 0
  {
    if w > 0 {
      AndNothing(w / 2);
    }
  }

  // ----- sets -----

  lemma SubsetSize<T>(a: set<T>, b: set<T>)
    requires a <= b
    ensures |a| <= |b|
  {
    assert b == a + (b - a);
  }

  lemma NoWrap(x: nat)
    requires x < U32_SIZE
    ensures Low32(x) == x
  {
    DivUnique(x, U32_SIZE, 0, x);
  }

  lemma WrapShrinks(x: nat)
    ensures Low32(x) <= x
  {
  }
}
