/** Strings of bits as numbers, least significant bit first, and the 64-bit buffers through which
    the compressor writes and reads them in 32-bit words (cpc/include/cpc_compressor_impl.hpp). */
module BitStreams {
  import opened Words

  /** A string of len bits: bit i of the string is bit i of num. */
  datatype Bits = Bits(num: nat, len: nat)

  const NO_BITS := Bits(0, 0)

  function Cat(s: Bits, t: Bits): Bits {
    Bits(s.num + Shl(t.num, s.len), s.len + t.len)
  }

  /** w & ((1 << n) - 1) */
  function LowBits(w: nat, n: nat): (r: nat)
    ensures r < Pow2(n)
  {
    if n == 0 then 0 else w % 2 + 2 * LowBits(w / 2, n - 1)
  }

  lemma {:induction false} LowBitsIsMasked(w: nat, n: nat)
    ensures LowBits(w, n) == Bitwise(And, w, Pow2(n) - 1)
    decreases n
  {
    if n == 0 {
      AndNothing(w);
    } else {
      LowBitsIsMasked(w / 2, n - 1);
      assert (Pow2(n) - 1) / 2 == Pow2(n - 1) - 1 && (Pow2(n) - 1) % 2 == 1;
    }
  }

  // ----- shifting -----

  lemma {:induction false} ShlAdd(x: nat, y: nat, n: nat)
    ensures Shl(x + y, n) == Shl(x, n) + Shl(y, n)
    ensures Shl(0, n) == 0
  {
    if n > 0 {
      ShlAdd(x, y, n - 1);
    }
  }

  lemma {:induction false} ShlShl(x: nat, m: nat, n: nat)
    ensures Shl(Shl(x, m), n) == Shl(x, m + n)
  {
    if n > 0 {
      ShlShl(x, m, n - 1);
    }
  }

  lemma {:induction false} ShlBound(x: nat, m: nat, n: nat)
    requires x < Pow2(m)
    ensures Shl(x, n) <= Pow2(m + n) - Pow2(n)
  {
    if n > 0 {
      ShlBound(x, m, n - 1);
    }
  }

  lemma CatAssoc(s: Bits, t: Bits, u: Bits)
    ensures Cat(Cat(s, t), u) == Cat(s, Cat(t, u))
  {
    ShlAdd(t.num, Shl(u.num, t.len), s.len);
    ShlShl(u.num, t.len, s.len);
  }

  lemma CatNothing(s: Bits)
    ensures Cat(NO_BITS, s) == s && Cat(s, NO_BITS) == s
  {
    ShlAdd(0, 0, s.len);
  }

  /** Splitting n bits off the front, when the string is also given as m >= n buffered bits b and
      the rest y. */
  lemma {:induction false} SplitFront(v: nat, rest: nat, n: nat, b: nat, y: nat, m: nat)
    requires v < Pow2(n) && n <= m && v + Shl(rest, n) == b + Shl(y, m)
    ensures LowBits(b, n) == v
    ensures rest == Shr(b, n) + Shl(y, m - n)
    decreases n
  {
    if n > 0 {
      SplitFront(v / 2, rest, n - 1, b / 2, y, m - 1);
    }
  }

  lemma {:induction false} ShrFits(b: nat, n: nat, m: nat)
    requires n <= m && b < Pow2(m)
    ensures Shr(b, n) < Pow2(m - n)
    decreases n
  {
    if n > 0 {
      ShrFits(b / 2, n - 1, m - 1);
    }
  }

  lemma {:induction false} LowAndHigh(w: nat, n: nat)
    ensures w == LowBits(w, n) + Shl(Shr(w, n), n)
    decreases n
  {
    if n > 0 {
      LowAndHigh(w / 2, n - 1);
    }
  }

  lemma {:induction false} LowOfLow(w: nat, m: nat, n: nat)
    requires n <= m
    ensures LowBits(LowBits(w, m), n) == LowBits(w, n)
    decreases n
  {
    if n > 0 {
      LowOfLow(w / 2, m - 1, n - 1);
    }
  }

  lemma {:induction false} LowOfSum(v: nat, g: nat, n: nat)
    requires v < Pow2(n)
    ensures LowBits(v + Shl(g, n), n) == v && Shr(v + Shl(g, n), n) == g
    decreases n
  {
    if n > 0 {
      LowOfSum(v / 2, g, n - 1);
    }
  }

  // ----- words -----

  ghost predicate AreWords(words: seq<nat>) {
    forall i | 0 <= i < |words| :: words[i] < Pow2(32)
  }

  /** The number whose 32-bit digits are the words, least first. */
  function WordsNumber(words: seq<nat>): nat {
    if words == [] then 0 else words[0] + Shl(WordsNumber(words[1..]), 32)
  }

  lemma {:induction false} WordsAppend(words: seq<nat>, w: nat)
    ensures WordsNumber(words + [w]) == WordsNumber(words) + Shl(w, 32 * |words|)
  {
    if words == [] {
      assert words + [w] == [w];
      ShlAdd(0, 0, 32);
    } else {
      assert (words + [w])[1..] == words[1..] + [w];
      WordsAppend(words[1..], w);
      ShlAdd(WordsNumber(words[1..]), Shl(w, 32 * (|words| - 1)), 32);
      ShlShl(w, 32 * (|words| - 1), 32);
    }
  }

  // ----- writing -----

  /** The flushed words and the bit buffer hold the bits of s. */
  ghost predicate Wrote(words: seq<nat>, bitbuf: nat, bufbits: nat, s: Bits) {
    && AreWords(words)
    && bufbits < 32 && bitbuf < Pow2(bufbits)
    && s.len == 32 * |words| + bufbits
    && s.num == WordsNumber(words) + Shl(bitbuf, 32 * |words|)
  }

  lemma WroteNothing()
    ensures Wrote([], 0, 0, NO_BITS)
  {
  }

  lemma BufferBits(words: seq<nat>, bitbuf: nat, bufbits: nat, s: Bits, v: nat, n: nat)
    requires Wrote(words, bitbuf, bufbits, s) && v < Pow2(n)
    ensures Bitwise(Or, bitbuf, Shl(v, bufbits)) == bitbuf + Shl(v, bufbits) < Pow2(bufbits + n)
    ensures Cat(s, Bits(v, n)).num == WordsNumber(words) + Shl(bitbuf + Shl(v, bufbits), 32 * |words|)
  {
    hide Pow2, Shl, WordsNumber, Bitwise, AreWords;
    OrAbove(bitbuf, v, bufbits);
    ShlBound(v, n, bufbits);
    ShlAdd(bitbuf, Shl(v, bufbits), 32 * |words|);
    ShlShl(v, bufbits, 32 * |words|);
  }

  lemma FlushWord(words: seq<nat>, bitbuf: nat, bufbits: nat)
    requires AreWords(words) && 32 <= bufbits && bitbuf < Pow2(bufbits)
    ensures AreWords(words + [LowBits(bitbuf, 32)]) && Shr(bitbuf, 32) < Pow2(bufbits - 32)
    ensures WordsNumber(words) + Shl(bitbuf, 32 * |words|)
            == WordsNumber(words + [LowBits(bitbuf, 32)]) + Shl(Shr(bitbuf, 32), 32 * (|words| + 1))
  {
    hide Shl, Shr, WordsNumber, LowBits, Pow2;
    LowAndHigh(bitbuf, 32);
    ShrFits(bitbuf, 32, bufbits);
    WordsAppend(words, LowBits(bitbuf, 32));
    ShlAdd(LowBits(bitbuf, 32), Shl(Shr(bitbuf, 32), 32), 32 * |words|);
    ShlShl(Shr(bitbuf, 32), 32, 32 * |words|);
  }

  /** Puts n bits into the buffer and flushes a word if the buffer holds one. */
  method PutBits(a: array<nat>, wordIndex: nat, bitbuf: nat, bufbits: nat, v: nat, n: nat, ghost s: Bits)
    returns (wordIndex': nat, bitbuf': nat, bufbits': nat)
    requires wordIndex <= a.Length && Wrote(a[..wordIndex], bitbuf, bufbits, s)
    requires v < Pow2(n) && n <= 32 && s.len + n <= 32 * a.Length
    modifies a
    ensures wordIndex <= wordIndex' <= a.Length && a[..wordIndex] == old(a[..wordIndex])
    ensures Wrote(a[..wordIndex'], bitbuf', bufbits', Cat(s, Bits(v, n)))
    ensures bitbuf' < Pow2(64)
  {
    hide Pow2, Shl, Shr, LowBits, WordsNumber, Bitwise, AreWords;
    ghost var words := a[..wordIndex];
    BufferBits(words, bitbuf, bufbits, s, v, n);
    wordIndex' := wordIndex;
    bitbuf' := Bitwise(Or, bitbuf, Shl(v, bufbits));
    bufbits' := bufbits + n;
    Pow2Mono(bufbits', 64);
    if bufbits' >= 32 { // maybe_flush_bitbuf
      FlushWord(words, bitbuf', bufbits');
      a[wordIndex'] := LowBits(bitbuf', 32);
      assert a[..wordIndex + 1] == words + [LowBits(bitbuf', 32)];
      wordIndex' := wordIndex' + 1;
      bitbuf' := Shr(bitbuf', 32);
      bufbits' := bufbits' - 32;
      Pow2Mono(bufbits', 64);
    }
  }

  /** The words that the encoder hands over: all bits, and nothing behind them. */
  ghost predicate Packs(words: seq<nat>, s: Bits) {
    && AreWords(words)
    && WordsNumber(words) == s.num
    && 32 * |words| >= s.len > 32 * (|words| - 1)
  }

  /** Flushes what is left in the buffer. */
  method FlushRest(a: array<nat>, wordIndex: nat, bitbuf: nat, bufbits: nat, ghost s: Bits) returns (wordIndex': nat)
    requires wordIndex <= a.Length && Wrote(a[..wordIndex], bitbuf, bufbits, s) && s.len <= 32 * a.Length
    modifies a
    ensures wordIndex' <= a.Length && Packs(a[..wordIndex'], s)
  {
    wordIndex' := wordIndex;
    if bufbits > 0 {
      ghost var words := a[..wordIndex];
      Pow2Mono(bufbits, 32);
      FitsLow(bitbuf, 32);
      WordsAppend(words, bitbuf);
      a[wordIndex'] := LowBits(bitbuf, 32);
      assert a[..wordIndex + 1] == words + [bitbuf];
      wordIndex' := wordIndex' + 1;
    } else {
      ShlAdd(0, 0, 32 * wordIndex);
    }
  }

  lemma {:induction false} FitsLow(w: nat, n: nat)
    requires w < Pow2(n)
    ensures LowBits(w, n) == w
    decreases n
  {
    if n > 0 {
      FitsLow(w / 2, n - 1);
    }
  }

  // ----- reading -----

  /** The bits of r are next: first those in the buffer, then the words from wordIndex on. */
  ghost predicate Reading(words: seq<nat>, wordIndex: nat, bitbuf: nat, bufbits: nat, r: Bits) {
    && AreWords(words)
    && wordIndex <= |words|
    && bitbuf < Pow2(bufbits)
    && r.num == bitbuf + Shl(WordsNumber(words[wordIndex..]), bufbits)
    && r.len <= bufbits + 32 * (|words| - wordIndex)
  }

  lemma StartReading(words: seq<nat>, s: Bits)
    requires Packs(words, s)
    ensures Reading(words, 0, 0, 0, s)
  {
    assert words[0..] == words;
  }

  /** Fetches a word if the buffer holds fewer than minbits bits: never past the end of the words
      as long as that many bits are still to come. */
  method MaybeFill(words: seq<nat>, wordIndex: nat, bitbuf: nat, bufbits: nat, minbits: nat, ghost r: Bits)
    returns (wordIndex': nat, bitbuf': nat, bufbits': nat)
    requires Reading(words, wordIndex, bitbuf, bufbits, r) && minbits <= 32 && minbits <= r.len
    ensures Reading(words, wordIndex', bitbuf', bufbits', r) && bufbits' >= minbits
    ensures bufbits <= 64 ==> bufbits' <= 64 && bitbuf' < Pow2(64)
  {
    hide Shl, WordsNumber, Bitwise, Pow2, AreWords;
    wordIndex', bitbuf', bufbits' := wordIndex, bitbuf, bufbits;
    if bufbits < minbits {
      FillWord(words, wordIndex, bitbuf, bufbits, r);
      bitbuf' := Bitwise(Or, bitbuf, Shl(words[wordIndex], bufbits));
      wordIndex' := wordIndex + 1;
      bufbits' := bufbits + 32;
    }
    if bufbits' <= 64 {
      Pow2Mono(bufbits', 64);
    }
  }

  lemma FillWord(words: seq<nat>, wordIndex: nat, bitbuf: nat, bufbits: nat, r: Bits)
    requires Reading(words, wordIndex, bitbuf, bufbits, r) && wordIndex < |words|
    ensures Reading(words, wordIndex + 1, Bitwise(Or, bitbuf, Shl(words[wordIndex], bufbits)), bufbits + 32, r)
  {
    hide Shl, WordsNumber, Bitwise, Pow2, AreWords;
    var rest, word := WordsNumber(words[wordIndex + 1..]), words[wordIndex];
    NextWord(words, wordIndex);
    OrAbove(bitbuf, word, bufbits);
    ShlBound(word, 32, bufbits);
    ShlAdd(word, Shl(rest, 32), bufbits);
    ShlShl(rest, 32, bufbits);
  }

  lemma NextWord(words: seq<nat>, i: nat)
    requires AreWords(words) && i < |words|
    ensures words[i] < Pow2(32)
    ensures WordsNumber(words[i..]) == words[i] + Shl(WordsNumber(words[i + 1..]), 32)
  {
    assert words[i..][1..] == words[i + 1..];
    hide Shl, Pow2;
  }

  /** Taking the first n bits, of value v, out of the buffer. */
  lemma TakeBits(words: seq<nat>, wordIndex: nat, bitbuf: nat, bufbits: nat, r: Bits, v: nat, n: nat, r': Bits)
    requires Reading(words, wordIndex, bitbuf, bufbits, r) && n <= bufbits
    requires r == Cat(Bits(v, n), r') && v < Pow2(n)
    ensures LowBits(bitbuf, n) == v
    ensures Reading(words, wordIndex, Shr(bitbuf, n), bufbits - n, r')
  {
    SplitFront(v, r'.num, n, bitbuf, WordsNumber(words[wordIndex..]), bufbits);
    ShrFits(bitbuf, n, bufbits);
  }
}
