/** The codes of the CPC compressor: unary numbers, length-limited prefix codes for bytes, and
    Golomb-coded row/column pairs (cpc/include/cpc_compressor_impl.hpp). */
module BitCodes {
  import opened Words
  import opened BitStreams
  import opened CpcSketches
  import opened PairLists

  // ----- unary numbers -----

  /** value zeros and a one. */
  function Unary(value: nat): Bits {
    Bits(Pow2(value), value + 1)
  }

  lemma {:induction false} ShlPow2(m: nat, n: nat)
    ensures Shl(Pow2(m), n) == Pow2(m + n)
  {
    if n > 0 {
      ShlPow2(m, n - 1);
    }
  }

  lemma UnarySplit(value: nat, n: nat)
    requires n <= value
    ensures Unary(value) == Cat(Bits(0, n), Unary(value - n))
  {
    ShlPow2(value - n, n);
  }

  method WriteUnary(a: array<nat>, wordIndex: nat, bitbuf: nat, bufbits: nat, value: nat, ghost s: Bits)
    returns (wordIndex': nat, bitbuf': nat, bufbits': nat)
    requires wordIndex <= a.Length && Wrote(a[..wordIndex], bitbuf, bufbits, s)
    requires s.len + value + 1 <= 32 * a.Length
    modifies a
    ensures wordIndex <= wordIndex' <= a.Length && a[..wordIndex] == old(a[..wordIndex])
    ensures Wrote(a[..wordIndex'], bitbuf', bufbits', Cat(s, Unary(value)))
  {
    hide Wrote, Pow2, Shl;
    wordIndex', bitbuf', bufbits' := wordIndex, bitbuf, bufbits;
    var remaining := value;
    ghost var t := s;
    while remaining >= 16
      invariant wordIndex <= wordIndex' <= a.Length && a[..wordIndex] == old(a[..wordIndex])
      invariant Wrote(a[..wordIndex'], bitbuf', bufbits', t)
      invariant t.len + remaining == s.len + value
      invariant Cat(t, Unary(remaining)) == Cat(s, Unary(value))
    {
      hide Wrote, Pow2, Shl, Unary;
      // 16 zeros, which or nothing into the buffer
      UnarySplit(remaining, 16);
      CatAssoc(t, Bits(0, 16), Unary(remaining - 16));
      remaining := remaining - 16;
      ghost var before := a[..wordIndex'];
      wordIndex', bitbuf', bufbits' := PutZeros(a, wordIndex', bitbuf', bufbits', 16, t);
      assert a[..wordIndex] == before[..wordIndex];
      t := Cat(t, Bits(0, 16));
    }
    var theUnaryCode := Pow2(remaining);
    Pow2Mono(remaining, remaining + 1);
    assert Pow2(remaining) < Pow2(remaining + 1);
    ghost var before := a[..wordIndex'];
    wordIndex', bitbuf', bufbits' := PutBits(a, wordIndex', bitbuf', bufbits', theUnaryCode, remaining + 1, t);
    assert a[..wordIndex] == before[..wordIndex];
  }

  method PutZeros(a: array<nat>, wordIndex: nat, bitbuf: nat, bufbits: nat, n: nat, ghost s: Bits)
    returns (wordIndex': nat, bitbuf': nat, bufbits': nat)
    requires wordIndex <= a.Length && Wrote(a[..wordIndex], bitbuf, bufbits, s)
    requires n <= 32 && s.len + n <= 32 * a.Length
    modifies a
    ensures wordIndex <= wordIndex' <= a.Length && a[..wordIndex] == old(a[..wordIndex])
    ensures Wrote(a[..wordIndex'], bitbuf', bufbits', Cat(s, Bits(0, n)))
  {
    wordIndex', bitbuf', bufbits' := PutBits(a, wordIndex, bitbuf, bufbits, 0, n, s);
  }

  /** byte_trailing_zeros_table */
  function ByteTrailingZeros(b: nat): nat {
    if b == 0 then 8 else TrailingZeros(b)
  }

  lemma {:induction false} LowestIs(x: nat, v: nat)
    requires LowBits(x, v + 1) == Pow2(v)
    ensures x > 0 && TrailingZeros(x) == v
    decreases v
  {
    if v > 0 {
      LowestIs(x / 2, v - 1);
    } else {
      assert LowBits(x, 1) == x % 2;
    }
  }

  /** What the 8-bit peek of read_unary sees. */
  lemma UnaryPeek(words: seq<nat>, wordIndex: nat, bitbuf: nat, bufbits: nat, value: nat, rest: Bits)
    requires Reading(words, wordIndex, bitbuf, bufbits, Cat(Unary(value), rest)) && 8 <= bufbits
    ensures value < 8 ==>
              ByteTrailingZeros(LowBits(bitbuf, 8)) == value
              && Reading(words, wordIndex, Shr(bitbuf, value + 1), bufbits - (value + 1), rest)
    ensures value >= 8 ==>
              ByteTrailingZeros(LowBits(bitbuf, 8)) == 8
              && Reading(words, wordIndex, Shr(bitbuf, 8), bufbits - 8, Cat(Unary(value - 8), rest))
  {
    if value < 8 {
      Pow2Mono(value, value + 1);
      TakeBits(words, wordIndex, bitbuf, bufbits, Cat(Unary(value), rest), Pow2(value), value + 1, rest);
      LowOfLow(bitbuf, 8, value + 1);
      LowestIs(LowBits(bitbuf, 8), value);
    } else {
      UnarySplit(value, 8);
      CatAssoc(Bits(0, 8), Unary(value - 8), rest);
      TakeBits(words, wordIndex, bitbuf, bufbits, Cat(Unary(value), rest), 0, 8, Cat(Unary(value - 8), rest));
    }
  }

  /** Reads a unary number with 8-bit lookahead, which the 7 bits required behind it make safe. */
  method ReadUnary(words: seq<nat>, wordIndex: nat, bitbuf: nat, bufbits: nat, ghost value: nat, ghost rest: Bits)
    returns (wordIndex': nat, bitbuf': nat, bufbits': nat, total: nat)
    requires Reading(words, wordIndex, bitbuf, bufbits, Cat(Unary(value), rest)) && rest.len >= 7
    ensures total == value && Reading(words, wordIndex', bitbuf', bufbits', rest)
  {
    hide Reading, Pow2, Shl, Shr, LowBits, ByteTrailingZeros;
    wordIndex', bitbuf', bufbits' := wordIndex, bitbuf, bufbits;
    var subtotal := 0;
    ghost var left := value;
    while true
      invariant subtotal + left == value
      invariant Reading(words, wordIndex', bitbuf', bufbits', Cat(Unary(left), rest))
      decreases left
    {
      hide Reading, Pow2, Shl, Shr, LowBits, ByteTrailingZeros;
      wordIndex', bitbuf', bufbits' := MaybeFill(words, wordIndex', bitbuf', bufbits', 8, Cat(Unary(left), rest));
      UnaryPeek(words, wordIndex', bitbuf', bufbits', left, rest);
      var peek8 := LowBits(bitbuf', 8);
      var trailingZeros := ByteTrailingZeros(peek8);
      if trailingZeros < 8 {
        bufbits' := bufbits' - (1 + trailingZeros);
        bitbuf' := Shr(bitbuf', 1 + trailingZeros);
        total := subtotal + trailingZeros;
        return;
      }
      // all eight bits are zeros of a longer codeword
      subtotal := subtotal + 8;
      bufbits' := bufbits' - 8;
      bitbuf' := Shr(bitbuf', 8);
      left := left - 8;
    }
  }

  // ----- prefix codes -----

  /** An encoding entry packs (length << 12) | codeword. */
  function CodeValue(entry: nat): nat {
    entry % 4096
  }

  function CodeLength(entry: nat): nat {
    entry / 4096
  }

  ghost predicate IsCode(enc: seq<nat>) {
    && |enc| <= 256
    && forall s | 0 <= s < |enc| :: 1 <= CodeLength(enc[s]) <= 12 && CodeValue(enc[s]) < Pow2(CodeLength(enc[s]))
  }

  /** No codeword is the beginning of another. */
  ghost predicate IsPrefixCode(enc: seq<nat>) {
    && IsCode(enc)
    && forall s, t | 0 <= s < |enc| && 0 <= t < |enc| && s != t && CodeLength(enc[s]) <= CodeLength(enc[t]) ::
         LowBits(CodeValue(enc[t]), CodeLength(enc[s])) != CodeValue(enc[s])
  }

  /** The 12-bit strings that begin with a codeword. */
  ghost predicate Extends(x: nat, entry: nat) {
    LowBits(x, CodeLength(entry)) == CodeValue(entry)
  }

  /** Every 12-bit extension of a codeword is looked up as (length << 8) | symbol. */
  ghost predicate Decodes(dec: seq<nat>, enc: seq<nat>) {
    && |dec| == 4096
    && forall x, s | 0 <= x < 4096 && 0 <= s < |enc| && Extends(x, enc[s]) :: dec[x] == 256 * CodeLength(enc[s]) + s
  }

  ghost predicate BeginsWithCodeword(enc: seq<nat>, x: nat) {
    exists s :: 0 <= s < |enc| && Extends(x, enc[s])
  }

  /** Every 12-bit string begins with a codeword. */
  ghost predicate IsComplete(enc: seq<nat>) {
    forall x | 0 <= x < 4096 :: BeginsWithCodeword(enc, x)
  }

  lemma OneCodeword(enc: seq<nat>, x: nat, s: nat, t: nat)
    requires IsPrefixCode(enc) && s < |enc| && t < |enc| && Extends(x, enc[s]) && Extends(x, enc[t])
    ensures s == t
  {
    var m, n := CodeLength(enc[s]), CodeLength(enc[t]);
    if m <= n {
      LowOfLow(x, n, m);
    } else {
      LowOfLow(x, m, n);
    }
  }

  /** The extensions of a codeword: the codeword with any bits above it. */
  lemma ExtensionAt(entry: nat, x: nat)
    requires x < 4096 && CodeLength(entry) <= 12 && Extends(x, entry)
    ensures var g := Shr(x, CodeLength(entry));
            g < Pow2(12 - CodeLength(entry)) && x == CodeValue(entry) + Shl(g, CodeLength(entry))
  {
    LowAndHigh(x, CodeLength(entry));
    assert Pow2(12) == 4096;
    ShrFits(x, CodeLength(entry), 12);
  }

  lemma ExtensionOf(entry: nat, g: nat)
    requires CodeLength(entry) <= 12 && CodeValue(entry) < Pow2(CodeLength(entry)) && g < Pow2(12 - CodeLength(entry))
    ensures var x := Bitwise(Or, CodeValue(entry), Shl(g, CodeLength(entry)));
            x < 4096 && Extends(x, entry) && Shr(x, CodeLength(entry)) == g && x == CodeValue(entry) + Shl(g, CodeLength(entry))
  {
    OrAbove(CodeValue(entry), g, CodeLength(entry));
    LowOfSum(CodeValue(entry), g, CodeLength(entry));
    ShlBound(g, 12 - CodeLength(entry), CodeLength(entry));
    assert Pow2(12) == 4096;
  }

  /** All symbols below s, and of symbol s the extensions by less than g, have been entered. */
  ghost predicate Entered(dec: seq<nat>, enc: seq<nat>, s: nat, g: nat) {
    && |dec| == 4096 && s <= |enc|
    && (forall x, t | 0 <= x < 4096 && 0 <= t < s && Extends(x, enc[t]) :: dec[x] == 256 * CodeLength(enc[t]) + t)
    && (s < |enc| ==> forall x | 0 <= x < 4096 && Extends(x, enc[s]) && Shr(x, CodeLength(enc[s])) < g ::
                        dec[x] == 256 * CodeLength(enc[s]) + s)
  }

  lemma EnterOne(dec: seq<nat>, enc: seq<nat>, s: nat, g: nat)
    requires IsPrefixCode(enc) && s < |enc| && g < Pow2(12 - CodeLength(enc[s])) && Entered(dec, enc, s, g)
    ensures var x := Bitwise(Or, CodeValue(enc[s]), Shl(g, CodeLength(enc[s])));
            x < 4096 && Entered(dec[x := 256 * CodeLength(enc[s]) + s], enc, s, g + 1)
  {
    var x := Bitwise(Or, CodeValue(enc[s]), Shl(g, CodeLength(enc[s])));
    ExtensionOf(enc[s], g);
    var dec' := dec[x := 256 * CodeLength(enc[s]) + s];
    forall y, t | 0 <= y < 4096 && 0 <= t < s && Extends(y, enc[t]) ensures dec'[y] == 256 * CodeLength(enc[t]) + t {
      if y == x {
        OneCodeword(enc, x, s, t);
      }
    }
    forall y | 0 <= y < 4096 && Extends(y, enc[s]) && Shr(y, CodeLength(enc[s])) < g + 1
      ensures dec'[y] == 256 * CodeLength(enc[s]) + s
    {
      ExtensionAt(enc[s], y);
    }
  }

  lemma AllEntered(dec: seq<nat>, enc: seq<nat>, s: nat)
    requires IsPrefixCode(enc) && s < |enc| && Entered(dec, enc, s, Pow2(12 - CodeLength(enc[s])))
    ensures Entered(dec, enc, s + 1, 0)
  {
    forall x | 0 <= x < 4096 && Extends(x, enc[s]) ensures dec[x] == 256 * CodeLength(enc[s]) + s {
      ExtensionAt(enc[s], x);
    }
  }

  method MakeDecodingTable(enc: seq<nat>) returns (dec: seq<nat>)
    requires IsPrefixCode(enc)
    ensures Decodes(dec, enc)
  {
    dec := seq(4096, _ => 0);
    for byteValue := 0 to |enc|
      invariant Entered(dec, enc, byteValue, 0)
    {
      var codeValue, codeLength := CodeValue(enc[byteValue]), CodeLength(enc[byteValue]);
      var decodingEntry := 256 * codeLength + byteValue;
      var numCopies := Pow2(12 - codeLength);
      for garbageBits := 0 to numCopies
        invariant Entered(dec, enc, byteValue, garbageBits)
      {
        hide Entered, IsPrefixCode, Bitwise, Shl, CodeValue, CodeLength, Pow2;
        EnterOne(dec, enc, byteValue, garbageBits);
        var extendedCodeValue := Bitwise(Or, codeValue, Shl(garbageBits, codeLength));
        dec := dec[extendedCodeValue := decodingEntry];
      }
      AllEntered(dec, enc, byteValue);
    }
  }

  /** The entry that x finds names a codeword that x begins with. */
  ghost predicate EntryIsRight(dec: seq<nat>, enc: seq<nat>, x: nat)
    requires x < |dec| && dec[x] % 256 < |enc|
  {
    dec[x] / 256 == CodeLength(enc[dec[x] % 256]) && Extends(x, enc[dec[x] % 256])
  }

  method ValidateDecodingTable(dec: seq<nat>, enc: seq<nat>) returns (valid: bool)
    requires |dec| == 4096 && forall x | 0 <= x < 4096 :: dec[x] % 256 < |enc|
    ensures valid <==> forall x: nat | x < 4096 :: EntryIsRight(dec, enc, x)
  {
    for decodeThis := 0 to 4096
      invariant forall x: nat | x < decodeThis :: EntryIsRight(dec, enc, x)
    {
      var decodedByte, decodedLength := dec[decodeThis] % 256, dec[decodeThis] / 256;
      var encodedBitPattern, encodedLength := CodeValue(enc[decodedByte]), CodeLength(enc[decodedByte]);
      if decodedLength != encodedLength || encodedBitPattern != LowBits(decodeThis, decodedLength) {
        assert !EntryIsRight(dec, enc, decodeThis);
        return false;
      }
    }
    return true;
  }

  lemma SymbolOfEntry(dec: seq<nat>, enc: seq<nat>, x: nat, s: nat)
    requires IsCode(enc) && Decodes(dec, enc) && x < 4096 && s < |enc| && Extends(x, enc[s])
    ensures dec[x] % 256 == s && EntryIsRight(dec, enc, x)
  {
    assert dec[x] == 256 * CodeLength(enc[s]) + s;
    hide Extends, CodeLength;
  }

  /** The decoding table of a complete prefix code passes the validation. */
  lemma ValidTable(dec: seq<nat>, enc: seq<nat>)
    requires IsCode(enc) && IsComplete(enc) && Decodes(dec, enc)
    ensures forall x: nat | x < 4096 :: dec[x] % 256 < |enc| && EntryIsRight(dec, enc, x)
  {
    assert |dec| == 4096;
    hide Decodes, Extends, IsCode, CodeLength, EntryIsRight;
    forall x: nat | x < 4096 ensures dec[x] % 256 < |enc| && EntryIsRight(dec, enc, x) {
      assert BeginsWithCodeword(enc, x);
      var s: nat :| s < |enc| && Extends(x, enc[s]);
      SymbolOfEntry(dec, enc, x, s);
    }
  }

  // ----- byte arrays -----

  function Codeword(entry: nat): Bits {
    Bits(CodeValue(entry), CodeLength(entry))
  }

  ghost predicate AreSymbols(bytes: seq<nat>, enc: seq<nat>) {
    forall i | 0 <= i < |bytes| :: bytes[i] < |enc|
  }

  function EncodeBytes(bytes: seq<nat>, enc: seq<nat>): Bits
    requires AreSymbols(bytes, enc)
  {
    if bytes == [] then NO_BITS else Cat(Codeword(enc[bytes[0]]), EncodeBytes(bytes[1..], enc))
  }

  lemma {:induction false} EncodedBytesLength(bytes: seq<nat>, enc: seq<nat>)
    requires AreSymbols(bytes, enc) && IsCode(enc)
    ensures |bytes| <= EncodeBytes(bytes, enc).len <= 12 * |bytes|
  {
    if bytes != [] {
      EncodedBytesLength(bytes[1..], enc);
    }
  }

  lemma EncodeNextByte(bytes: seq<nat>, enc: seq<nat>, i: nat)
    requires AreSymbols(bytes, enc) && IsCode(enc) && i < |bytes|
    ensures AreSymbols(bytes[i..], enc) && AreSymbols(bytes[i + 1..], enc)
    ensures EncodeBytes(bytes[i..], enc) == Cat(Codeword(enc[bytes[i]]), EncodeBytes(bytes[i + 1..], enc))
    ensures Codeword(enc[bytes[i]]).num < Pow2(Codeword(enc[bytes[i]]).len) && 1 <= Codeword(enc[bytes[i]]).len <= 12
  {
    assert bytes[i..][1..] == bytes[i + 1..];
  }

  /** The padding that keeps the 12-bit peek inside the words. */
  const BYTES_PADDING := Bits(0, 11)

  method LowLevelCompressBytes(bytes: seq<nat>, enc: seq<nat>, a: array<nat>) returns (wordIndex: nat)
    requires AreSymbols(bytes, enc) && IsCode(enc) && EncodeBytes(bytes, enc).len + 11 <= 32 * a.Length
    modifies a
    ensures wordIndex <= a.Length
    ensures Packs(a[..wordIndex], Cat(EncodeBytes(bytes, enc), BYTES_PADDING))
  {
    hide Wrote, IsCode, Codeword, EncodeBytes, AreSymbols, Shl;
    var bitbuf, bufbits := 0, 0;
    wordIndex := 0;
    ghost var all, t := EncodeBytes(bytes, enc), NO_BITS;
    WroteNothing();
    assert a[..0] == [] && bytes[0..] == bytes && bytes[|bytes|..] == [];
    CatNothing(all);
    NoBytes(enc);
    for i := 0 to |bytes|
      invariant wordIndex <= a.Length && Wrote(a[..wordIndex], bitbuf, bufbits, t)
      invariant AreSymbols(bytes[i..], enc) && Cat(t, EncodeBytes(bytes[i..], enc)) == all
    {
      hide Wrote, IsCode, EncodeBytes, AreSymbols, Shl, Cat;
      wordIndex, bitbuf, bufbits, t := PutByte(bytes, enc, i, a, wordIndex, bitbuf, bufbits, t);
    }
    CatNothing(t);
    wordIndex, bitbuf, bufbits := PutZeros(a, wordIndex, bitbuf, bufbits, 11, t);
    wordIndex := FlushRest(a, wordIndex, bitbuf, bufbits, Cat(t, BYTES_PADDING));
  }

  lemma NoBytes(enc: seq<nat>)
    ensures AreSymbols([], enc) && EncodeBytes([], enc) == NO_BITS
  {
  }

  method PutByte(bytes: seq<nat>, enc: seq<nat>, i: nat, a: array<nat>, wordIndex: nat, bitbuf: nat, bufbits: nat,
                 ghost s: Bits)
    returns (wordIndex': nat, bitbuf': nat, bufbits': nat, ghost t: Bits)
    requires AreSymbols(bytes, enc) && IsCode(enc) && i < |bytes| && AreSymbols(bytes[i..], enc)
    requires wordIndex <= a.Length && Wrote(a[..wordIndex], bitbuf, bufbits, s)
    requires Cat(s, EncodeBytes(bytes[i..], enc)).len <= 32 * a.Length
    modifies a
    ensures wordIndex' <= a.Length && Wrote(a[..wordIndex'], bitbuf', bufbits', t)
    ensures AreSymbols(bytes[i + 1..], enc)
    ensures Cat(t, EncodeBytes(bytes[i + 1..], enc)) == Cat(s, EncodeBytes(bytes[i..], enc))
  {
    hide Wrote, IsCode, Codeword, EncodeBytes, Shl;
    EncodeNextByte(bytes, enc, i);
    var codeword := Codeword(enc[bytes[i]]);
    t := Cat(s, codeword);
    CatAssoc(s, codeword, EncodeBytes(bytes[i + 1..], enc));
    wordIndex', bitbuf', bufbits' := PutBits(a, wordIndex, bitbuf, bufbits, codeword.num, codeword.len, s);
  }

  /** The lookup of the next 12 bits finds the symbol whose codeword comes next. */
  lemma PeekFinds(words: seq<nat>, wordIndex: nat, bitbuf: nat, bufbits: nat, enc: seq<nat>, dec: seq<nat>, s: nat, rest: Bits)
    requires Decodes(dec, enc) && IsCode(enc) && s < |enc| && 12 <= bufbits
    requires Reading(words, wordIndex, bitbuf, bufbits, Cat(Codeword(enc[s]), rest))
    ensures LowBits(bitbuf, 12) < 4096 == |dec| && CodeLength(enc[s]) <= bufbits
    ensures dec[LowBits(bitbuf, 12)] / 256 == CodeLength(enc[s]) && dec[LowBits(bitbuf, 12)] % 256 == s
    ensures Reading(words, wordIndex, Shr(bitbuf, CodeLength(enc[s])), bufbits - CodeLength(enc[s]), rest)
  {
    assert Pow2(12) == 4096;
    TakeBits(words, wordIndex, bitbuf, bufbits, Cat(Codeword(enc[s]), rest), CodeValue(enc[s]), CodeLength(enc[s]), rest);
    LowOfLow(bitbuf, 12, CodeLength(enc[s]));
    assert Extends(LowBits(bitbuf, 12), enc[s]);
  }

  /** Inverts LowLevelCompressBytes; the ghost bytes are what was encoded. */
  method LowLevelUncompressBytes(byteArray: array<nat>, dec: seq<nat>, words: seq<nat>, ghost enc: seq<nat>, ghost bytes: seq<nat>)
    requires IsCode(enc) && Decodes(dec, enc) && AreSymbols(bytes, enc) && byteArray.Length == |bytes|
    requires Packs(words, Cat(EncodeBytes(bytes, enc), BYTES_PADDING))
    modifies byteArray
    ensures byteArray[..] == bytes
  {
    hide Reading, IsCode, Decodes, Codeword, EncodeBytes, Cat, AreSymbols, Shr;
    var wordIndex, bitbuf, bufbits := 0, 0, 0;
    StartReading(words, Cat(EncodeBytes(bytes, enc), BYTES_PADDING));
    assert bytes[0..] == bytes;
    for byteIndex := 0 to byteArray.Length
      invariant AreSymbols(bytes[byteIndex..], enc)
      invariant Reading(words, wordIndex, bitbuf, bufbits, Cat(EncodeBytes(bytes[byteIndex..], enc), BYTES_PADDING))
      invariant byteArray[..byteIndex] == bytes[..byteIndex]
    {
      hide Reading, IsCode, Decodes, Codeword, EncodeBytes, Cat, AreSymbols, Shr;
      ghost var before := byteArray[..byteIndex];
      var decodedByte;
      wordIndex, bitbuf, bufbits, decodedByte := GetByte(words, wordIndex, bitbuf, bufbits, dec, enc, bytes, byteIndex);
      byteArray[byteIndex] := decodedByte;
      assert byteArray[..byteIndex + 1] == before + [decodedByte];
      assert bytes[..byteIndex + 1] == bytes[..byteIndex] + [bytes[byteIndex]];
    }
    assert byteArray[..] == byteArray[..byteArray.Length] && bytes[..|bytes|] == bytes;
  }

  method GetByte(words: seq<nat>, wordIndex: nat, bitbuf: nat, bufbits: nat, dec: seq<nat>, ghost enc: seq<nat>,
                 ghost bytes: seq<nat>, ghost i: nat)
    returns (wordIndex': nat, bitbuf': nat, bufbits': nat, decodedByte: nat)
    requires IsCode(enc) && Decodes(dec, enc) && AreSymbols(bytes, enc) && i < |bytes| && AreSymbols(bytes[i..], enc)
    requires Reading(words, wordIndex, bitbuf, bufbits, Cat(EncodeBytes(bytes[i..], enc), BYTES_PADDING))
    ensures decodedByte == bytes[i] && AreSymbols(bytes[i + 1..], enc)
    ensures Reading(words, wordIndex', bitbuf', bufbits', Cat(EncodeBytes(bytes[i + 1..], enc), BYTES_PADDING))
  {
    hide Reading, IsCode, Decodes, EncodeBytes, Shr;
    ghost var s, rest := bytes[i], Cat(EncodeBytes(bytes[i + 1..], enc), BYTES_PADDING);
    EncodeNextByte(bytes, enc, i);
    SymbolInRange(bytes, enc, i);
    CatAssoc(Codeword(enc[s]), EncodeBytes(bytes[i + 1..], enc), BYTES_PADDING);
    wordIndex', bitbuf', bufbits' := MaybeFill(words, wordIndex, bitbuf, bufbits, 12, Cat(Codeword(enc[s]), rest));
    PeekFinds(words, wordIndex', bitbuf', bufbits', enc, dec, s, rest);
    var peek12 := LowBits(bitbuf', 12); // no codeword is longer than that
    var lookup := dec[peek12];
    var codeWordLength := lookup / 256;
    decodedByte := lookup % 256;
    bitbuf' := Shr(bitbuf', codeWordLength);
    bufbits' := bufbits' - codeWordLength;
  }

  lemma SymbolInRange(bytes: seq<nat>, enc: seq<nat>, i: nat)
    requires AreSymbols(bytes, enc) && i < |bytes|
    ensures bytes[i] < |enc|
  {
  }

  // ----- row/column pairs -----

  /** The list increases from at least the cell (row, col) on. */
  ghost predicate ListFrom(pairs: seq<nat>, row: nat, col: nat) {
    Increasing(pairs) && forall i | 0 <= i < |pairs| :: Cell(row, col) <= pairs[i]
  }

  /** The column distance to the predicted cell, and the row distance in Golomb form. */
  function PairBits(xDelta: nat, yDelta: nat, b: nat, enc: seq<nat>): Bits
    requires xDelta < |enc|
  {
    Cat(Codeword(enc[xDelta]), Cat(Unary(Shr(yDelta, b)), Bits(LowBits(yDelta, b), b)))
  }

  function XDelta(pair: nat, row: nat, col: nat): int {
    Col(pair) - if Row(pair) != row then 0 else col
  }

  lemma DeltasInRange(pairs: seq<nat>, row: nat, col: nat)
    requires ListFrom(pairs, row, col) && pairs != []
    ensures row <= Row(pairs[0]) && 0 <= XDelta(pairs[0], row, col) < 64
    ensures ListFrom(pairs[1..], Row(pairs[0]), Col(pairs[0]) + 1)
  {
  }

  function EncodePairs(pairs: seq<nat>, b: nat, enc: seq<nat>, row: nat, col: nat): Bits
    requires ListFrom(pairs, row, col) && |enc| == 65
    decreases |pairs|
  {
    if pairs == [] then NO_BITS
    else
      DeltasInRange(pairs, row, col);
      Cat(PairBits(XDelta(pairs[0], row, col), Row(pairs[0]) - row, b, enc),
          EncodePairs(pairs[1..], b, enc, Row(pairs[0]), Col(pairs[0]) + 1))
  }

  lemma EncodeNextPair(pairs: seq<nat>, b: nat, enc: seq<nat>, row: nat, col: nat, i: nat)
    requires i < |pairs| && ListFrom(pairs[i..], row, col) && |enc| == 65
    ensures row <= Row(pairs[i]) && 0 <= XDelta(pairs[i], row, col) < 64
    ensures ListFrom(pairs[i + 1..], Row(pairs[i]), Col(pairs[i]) + 1)
    ensures EncodePairs(pairs[i..], b, enc, row, col)
            == Cat(PairBits(XDelta(pairs[i], row, col), Row(pairs[i]) - row, b, enc),
                   EncodePairs(pairs[i + 1..], b, enc, Row(pairs[i]), Col(pairs[i]) + 1))
  {
    DeltasInRange(pairs[i..], row, col);
    assert pairs[i..][1..] == pairs[i + 1..];
  }

  /** The padding behind the last pair: no more zeros than it takes for a pair and what follows to have
      at least 12 bits. */
  function PairsPadding(b: nat): (padding: Bits)
    ensures padding.num == 0 && 2 + b + padding.len >= 12 && (padding.len > 0 ==> 2 + b + padding.len == 12)
  {
    Bits(0, if b > 10 then 0 else 10 - b)
  }

  method LowLevelCompressPairs(pairs: seq<nat>, b: nat, enc: seq<nat>, a: array<nat>) returns (wordIndex: nat)
    requires ListFrom(pairs, 0, 0) && b <= 26 && IsCode(enc) && |enc| == 65
    requires EncodePairs(pairs, b, enc, 0, 0).len + PairsPadding(b).len <= 32 * a.Length
    modifies a
    ensures wordIndex <= a.Length
    ensures Packs(a[..wordIndex], Cat(EncodePairs(pairs, b, enc, 0, 0), PairsPadding(b)))
  {
    hide Wrote, IsCode, EncodePairs, ListFrom, Shl, Shr, Col, Row;
    var bitbuf, bufbits := 0, 0;
    wordIndex := 0;
    var predictedRow, predictedCol := 0, 0;
    ghost var all, t := EncodePairs(pairs, b, enc, 0, 0), NO_BITS;
    WroteNothing();
    assert a[..0] == [] && pairs[0..] == pairs && pairs[|pairs|..] == [];
    CatNothing(all);
    for pairIndex := 0 to |pairs|
      invariant wordIndex <= a.Length && Wrote(a[..wordIndex], bitbuf, bufbits, t)
      invariant ListFrom(pairs[pairIndex..], predictedRow, predictedCol)
      invariant Cat(t, EncodePairs(pairs[pairIndex..], b, enc, predictedRow, predictedCol)) == all
    {
      hide Wrote, IsCode, EncodePairs, ListFrom, Shl, Shr, Cat;
      EncodeNextPair(pairs, b, enc, predictedRow, predictedCol, pairIndex);
      var row, col := Row(pairs[pairIndex]), Col(pairs[pairIndex]);
      if row != predictedRow {
        predictedCol := 0;
      }
      ghost var rest := EncodePairs(pairs[pairIndex + 1..], b, enc, row, col + 1);
      wordIndex, bitbuf, bufbits, t :=
        PutPair(col - predictedCol, row - predictedRow, b, enc, a, wordIndex, bitbuf, bufbits, t, rest);
      predictedRow, predictedCol := row, col + 1;
    }
    NoPairs(b, enc, predictedRow, predictedCol);
    CatNothing(t);
    wordIndex, bitbuf, bufbits := PutZeros(a, wordIndex, bitbuf, bufbits, PairsPadding(b).len, t);
    wordIndex := FlushRest(a, wordIndex, bitbuf, bufbits, Cat(t, PairsPadding(b)));
  }

  lemma NoPairs(b: nat, enc: seq<nat>, row: nat, col: nat)
    requires |enc| == 65
    ensures ListFrom([], row, col) && EncodePairs([], b, enc, row, col) == NO_BITS
  {
  }

  method PutPair(xDelta: nat, yDelta: nat, b: nat, enc: seq<nat>, a: array<nat>, wordIndex: nat, bitbuf: nat, bufbits: nat,
                 ghost s: Bits, ghost rest: Bits)
    returns (wordIndex': nat, bitbuf': nat, bufbits': nat, ghost t: Bits)
    requires xDelta < |enc| && b <= 26 && IsCode(enc)
    requires wordIndex <= a.Length && Wrote(a[..wordIndex], bitbuf, bufbits, s)
    requires Cat(s, Cat(PairBits(xDelta, yDelta, b, enc), rest)).len <= 32 * a.Length
    modifies a
    ensures wordIndex' <= a.Length && Wrote(a[..wordIndex'], bitbuf', bufbits', t)
    ensures t == Cat(s, PairBits(xDelta, yDelta, b, enc))
    ensures Cat(t, rest) == Cat(s, Cat(PairBits(xDelta, yDelta, b, enc), rest))
  {
    hide Wrote, Shl;
    var codeword := Codeword(enc[xDelta]);
    wordIndex', bitbuf', bufbits' := PutBits(a, wordIndex, bitbuf, bufbits, codeword.num, codeword.len, s);
    var golombLo, golombHi := LowBits(yDelta, b), Shr(yDelta, b);
    wordIndex', bitbuf', bufbits' := WriteUnary(a, wordIndex', bitbuf', bufbits', golombHi, Cat(s, codeword));
    wordIndex', bitbuf', bufbits' :=
      PutBits(a, wordIndex', bitbuf', bufbits', golombLo, b, Cat(Cat(s, codeword), Unary(golombHi)));
    t := Cat(Cat(Cat(s, codeword), Unary(golombHi)), Bits(golombLo, b));
    CatAssoc(Cat(s, codeword), Unary(golombHi), Bits(golombLo, b));
    CatAssoc(s, codeword, Cat(Unary(golombHi), Bits(golombLo, b)));
    CatAssoc(s, PairBits(xDelta, yDelta, b, enc), rest);
  }

  /** Inverts LowLevelCompressPairs; the ghost pairs are what was encoded. */
  method LowLevelUncompressPairs(pairArray: array<nat>, b: nat, dec: seq<nat>, words: seq<nat>, ghost enc: seq<nat>,
                                 ghost pairs: seq<nat>)
    requires ListFrom(pairs, 0, 0) && b <= 26 && IsCode(enc) && |enc| == 65 && Decodes(dec, enc)
    requires pairArray.Length == |pairs| && Packs(words, Cat(EncodePairs(pairs, b, enc, 0, 0), PairsPadding(b)))
    modifies pairArray
    ensures pairArray[..] == pairs
  {
    hide Reading, IsCode, Decodes, EncodePairs, ListFrom, Cat, Shl, Shr, Col, Row, PairsPadding;
    var wordIndex, bitbuf, bufbits := 0, 0, 0;
    var predictedRow, predictedCol := 0, 0;
    StartReading(words, Cat(EncodePairs(pairs, b, enc, 0, 0), PairsPadding(b)));
    assert pairs[0..] == pairs;
    for pairIndex := 0 to pairArray.Length
      invariant ListFrom(pairs[pairIndex..], predictedRow, predictedCol)
      invariant Reading(words, wordIndex, bitbuf, bufbits,
                        Cat(EncodePairs(pairs[pairIndex..], b, enc, predictedRow, predictedCol), PairsPadding(b)))
      invariant pairArray[..pairIndex] == pairs[..pairIndex]
    {
      hide Reading, IsCode, Decodes, EncodePairs, ListFrom, Cat, Shl, Shr, Col, Row, PairsPadding, Cell;
      ghost var before, pair := pairArray[..pairIndex], pairs[pairIndex];
      EncodeNextPair(pairs, b, enc, predictedRow, predictedCol, pairIndex);
      CatAssoc(PairBits(XDelta(pair, predictedRow, predictedCol), Row(pair) - predictedRow, b, enc),
               EncodePairs(pairs[pairIndex + 1..], b, enc, Row(pair), Col(pair) + 1), PairsPadding(b));
      var xDelta, yDelta;
      wordIndex, bitbuf, bufbits, xDelta, yDelta :=
        GetPair(words, wordIndex, bitbuf, bufbits, b, dec, enc, XDelta(pair, predictedRow, predictedCol), Row(pair) - predictedRow,
                EncodePairs(pairs[pairIndex + 1..], b, enc, Row(pair), Col(pair) + 1));
      DeltasBack(pair, predictedRow, predictedCol);
      if yDelta > 0 {
        predictedCol := 0;
      }
      var row, col := predictedRow + yDelta, predictedCol + xDelta;
      pairArray[pairIndex] := Cell(row, col);
      predictedRow, predictedCol := row, col + 1;
      assert pairArray[..pairIndex + 1] == before + [pair];
      assert pairs[..pairIndex + 1] == pairs[..pairIndex] + [pair];
    }
    assert pairArray[..] == pairArray[..pairArray.Length] && pairs[..|pairs|] == pairs;
  }

  /** The row and column follow from their distances. */
  lemma DeltasBack(pair: nat, row: nat, col: nat)
    requires row <= Row(pair)
    ensures var x, y := XDelta(pair, row, col), Row(pair) - row;
            row + y == Row(pair) && (if y > 0 then 0 else col) + x == Col(pair)
    ensures Cell(Row(pair), Col(pair)) == pair
  {
  }

  lemma PeekPair(b: nat, enc: seq<nat>, x: nat, y: nat, rest: Bits)
    requires x < |enc| && IsCode(enc)
    ensures var tail := Cat(Bits(LowBits(y, b), b), Cat(rest, PairsPadding(b)));
            && tail.len >= b && tail.len >= 7
            && Cat(Codeword(enc[x]), Cat(Unary(Shr(y, b)), tail)).len >= 12
            && Cat(PairBits(x, y, b, enc), Cat(rest, PairsPadding(b))) == Cat(Codeword(enc[x]), Cat(Unary(Shr(y, b)), tail))
  {
    hide LowBits, Shr;
    CatAssoc(Codeword(enc[x]), Cat(Unary(Shr(y, b)), Bits(LowBits(y, b), b)), Cat(rest, PairsPadding(b)));
    CatAssoc(Unary(Shr(y, b)), Bits(LowBits(y, b), b), Cat(rest, PairsPadding(b)));
  }

  method GetPair(words: seq<nat>, wordIndex: nat, bitbuf: nat, bufbits: nat, b: nat, dec: seq<nat>, ghost enc: seq<nat>,
                 ghost x: nat, ghost y: nat, ghost rest: Bits)
    returns (wordIndex': nat, bitbuf': nat, bufbits': nat, xDelta: nat, yDelta: nat)
    requires IsCode(enc) && Decodes(dec, enc) && x < |enc| && b <= 26
    requires Reading(words, wordIndex, bitbuf, bufbits, Cat(PairBits(x, y, b, enc), Cat(rest, PairsPadding(b))))
    ensures xDelta == x && yDelta == y
    ensures Reading(words, wordIndex', bitbuf', bufbits', Cat(rest, PairsPadding(b)))
  {
    hide Reading, IsCode, Decodes, Codeword, Unary, Cat, Shl, Shr, PairBits;
    PeekPair(b, enc, x, y, rest);
    ghost var tail := Cat(Bits(LowBits(y, b), b), Cat(rest, PairsPadding(b)));
    ghost var afterX := Cat(Unary(Shr(y, b)), tail);
    wordIndex', bitbuf', bufbits' := MaybeFill(words, wordIndex, bitbuf, bufbits, 12, Cat(Codeword(enc[x]), afterX));
    PeekFinds(words, wordIndex', bitbuf', bufbits', enc, dec, x, afterX);
    var peek12 := LowBits(bitbuf', 12);
    var lookup := dec[peek12];
    var codeWordLength := lookup / 256;
    xDelta := lookup % 256;
    bitbuf' := Shr(bitbuf', codeWordLength);
    bufbits' := bufbits' - codeWordLength;

    var golombHi;
    wordIndex', bitbuf', bufbits', golombHi := ReadUnary(words, wordIndex', bitbuf', bufbits', Shr(y, b), tail);
    wordIndex', bitbuf', bufbits' := MaybeFill(words, wordIndex', bitbuf', bufbits', b, tail);
    TakeBits(words, wordIndex', bitbuf', bufbits', tail, LowBits(y, b), b, Cat(rest, PairsPadding(b)));
    var golombLo := LowBits(bitbuf', b);
    bitbuf' := Shr(bitbuf', b);
    bufbits' := bufbits' - b;
    GolombBack(y, b);
    yDelta := Bitwise(Or, Shl(golombHi, b), golombLo);
  }

  lemma GolombBack(y: nat, b: nat)
    ensures Bitwise(Or, Shl(Shr(y, b), b), LowBits(y, b)) == y
  {
    LowAndHigh(y, b);
    OrAbove(LowBits(y, b), Shr(y, b), b);
    OrCommutes(LowBits(y, b), Shl(Shr(y, b), b));
  }

  lemma {:induction false} OrCommutes(x: nat, y: nat)
    ensures Bitwise(Or, x, y) == Bitwise(Or, y, x)
    decreases x + y
  {
    if x != 0 || y != 0 {
      OrCommutes(x / 2, y / 2);
    }
  }

  // ----- the size of the output buffers -----

  function DivideLongsRoundingUp(x: nat, y: nat): nat
    requires y > 0
  {
    if (x / y) * y == x then x / y else x / y + 1
  }

  lemma RoundedUpWords(bits: nat)
    ensures bits <= 32 * DivideLongsRoundingUp(bits, 32) < bits + 32
  {
  }

  /** The length of the buffer for n pairs. The products and the sum of the row parts have 32 bits. */
  function SafeLengthForCompressedPairBuf(k: nat, numPairs: nat, b: nat): nat {
    var yBits := Low32(numPairs * (1 + b) + Shr(k, b));
    var xBits := Low32(12 * numPairs);
    DivideLongsRoundingUp(xBits + yBits + PairsPadding(b).len, 32)
  }

  /** The same without any wrapping around. */
  function SufficientLength(k: nat, numPairs: nat, b: nat): nat {
    DivideLongsRoundingUp(12 * numPairs + (numPairs * (1 + b) + Shr(k, b)) + PairsPadding(b).len, 32)
  }

  /** Neither the column parts nor the row parts of the length wrap around. */
  ghost predicate NothingWraps(k: nat, numPairs: nat, b: nat) {
    12 * numPairs < U32_SIZE && numPairs * (1 + b) + Shr(k, b) < U32_SIZE
  }

  /** The code of the pairs does not fit into the buffer. */
  ghost predicate Overruns(pairs: seq<nat>, b: nat, enc: seq<nat>, k: nat)
    requires ListFrom(pairs, 0, 0) && |enc| == 65
  {
    32 * SafeLengthForCompressedPairBuf(k, |pairs|, b) < EncodePairs(pairs, b, enc, 0, 0).len + PairsPadding(b).len
  }

  function SafeLengthForCompressedWindowBuf(k: nat): nat {
    DivideLongsRoundingUp(12 * k + 11, 32)
  }

  lemma {:induction false} ShrSuperadditive(x: nat, y: nat, n: nat)
    ensures Shr(x, n) + Shr(y, n) <= Shr(x + y, n)
    decreases n
  {
    if n > 0 {
      ShrSuperadditive(x / 2, y / 2, n - 1);
      ShrMonotone(x / 2 + y / 2, (x + y) / 2, n - 1);
    }
  }

  lemma {:induction false} ShrMonotone(x: nat, y: nat, n: nat)
    requires x <= y
    ensures Shr(x, n) <= Shr(y, n)
    decreases n
  {
    if n > 0 {
      ShrMonotone(x / 2, y / 2, n - 1);
    }
  }

  /** The unary parts telescope: together they cannot exceed the row count's own high part. */
  lemma {:induction false} EncodedPairsLength(pairs: seq<nat>, b: nat, enc: seq<nat>, row: nat, col: nat, k: nat)
    requires ListFrom(pairs, row, col) && |enc| == 65 && IsCode(enc) && row <= k
    requires forall i | 0 <= i < |pairs| :: Row(pairs[i]) < k
    ensures EncodePairs(pairs, b, enc, row, col).len <= (13 + b) * |pairs| + Shr(k - row, b)
    decreases |pairs|
  {
    if pairs != [] {
      DeltasInRange(pairs, row, col);
      var r := Row(pairs[0]);
      EncodedPairsLength(pairs[1..], b, enc, r, Col(pairs[0]) + 1, k);
      ShrSuperadditive(r - row, k - r, b);
      PairBitsLength(pairs, b, enc, row, col);
      assert (13 + b) * |pairs| == (13 + b) * (|pairs| - 1) + (13 + b);
    }
  }

  lemma PairBitsLength(pairs: seq<nat>, b: nat, enc: seq<nat>, row: nat, col: nat)
    requires pairs != [] && ListFrom(pairs, row, col) && |enc| == 65 && IsCode(enc)
    requires row <= Row(pairs[0]) && 0 <= XDelta(pairs[0], row, col) < 64
    ensures PairBits(XDelta(pairs[0], row, col), Row(pairs[0]) - row, b, enc).len <= 13 + b + Shr(Row(pairs[0]) - row, b)
  {
  }

  lemma SufficientPairBuf(pairs: seq<nat>, b: nat, enc: seq<nat>, k: nat)
    requires ListFrom(pairs, 0, 0) && |enc| == 65 && IsCode(enc) && forall i | 0 <= i < |pairs| :: Row(pairs[i]) < k
    ensures EncodePairs(pairs, b, enc, 0, 0).len + PairsPadding(b).len <= 32 * SufficientLength(k, |pairs|, b)
  {
    EncodedPairsLength(pairs, b, enc, 0, 0, k);
    var n := |pairs|;
    assert (13 + b) * n == 12 * n + n * (1 + b);
    RoundedUpWords(12 * n + (n * (1 + b) + Shr(k, b)) + PairsPadding(b).len);
    hide EncodePairs, Shr, DivideLongsRoundingUp;
  }

  lemma SafeIsSufficient(k: nat, n: nat, b: nat)
    ensures SafeLengthForCompressedPairBuf(k, n, b) <= SufficientLength(k, n, b)
    ensures NothingWraps(k, n, b) ==>
              SafeLengthForCompressedPairBuf(k, n, b) == SufficientLength(k, n, b)
  {
    var x, y, pad := 12 * n, n * (1 + b) + Shr(k, b), PairsPadding(b).len;
    WrapShrinks(x);
    WrapShrinks(y);
    hide Shr, Low32, DivideLongsRoundingUp;
    RoundedUpWords(Low32(x) + Low32(y) + pad);
    RoundedUpWords(x + y + pad);
    if NothingWraps(k, n, b) {
      NoWrap(x);
      NoWrap(y);
    }
  }

  /** As long as nothing wraps around, the buffer is never overrun. */
  lemma SafePairBuf(pairs: seq<nat>, b: nat, enc: seq<nat>, k: nat)
    requires ListFrom(pairs, 0, 0) && |enc| == 65 && IsCode(enc) && forall i | 0 <= i < |pairs| :: Row(pairs[i]) < k
    requires NothingWraps(k, |pairs|, b)
    ensures !Overruns(pairs, b, enc, k)
  {
    hide EncodePairs, SafeLengthForCompressedPairBuf, SufficientLength, Shr;
    SufficientPairBuf(pairs, b, enc, k);
    SafeIsSufficient(k, |pairs|, b);
  }

  /** Each pair takes at least a bit for its column, a bit that ends its unary part, and b bits. */
  lemma {:induction false} EncodedPairsAtLeast(pairs: seq<nat>, b: nat, enc: seq<nat>, row: nat, col: nat)
    requires ListFrom(pairs, row, col) && |enc| == 65 && IsCode(enc)
    ensures EncodePairs(pairs, b, enc, row, col).len >= |pairs| * (2 + b)
    decreases |pairs|
  {
    if pairs != [] {
      DeltasInRange(pairs, row, col);
      EncodedPairsAtLeast(pairs[1..], b, enc, Row(pairs[0]), Col(pairs[0]) + 1);
      assert |pairs| * (2 + b) == (|pairs| - 1) * (2 + b) + (2 + b);
      hide Shr, LowBits;
    }
  }

  /** If the product that has wrapped around is small, every list of that length overruns the buffer. */
  lemma AlwaysOverrun(pairs: seq<nat>, b: nat, enc: seq<nat>, k: nat)
    requires ListFrom(pairs, 0, 0) && |enc| == 65 && IsCode(enc)
    requires Low32(12 * |pairs|) + Shr(k, b) + 31 < |pairs|
    ensures Overruns(pairs, b, enc, k)
  {
    var n := |pairs|;
    EncodedPairsAtLeast(pairs, b, enc, 0, 0);
    LengthBelow(k, n, b);
    hide EncodePairs, Shr, Low32, SafeLengthForCompressedPairBuf, PairsPadding;
    PairsTimes(n, b);
  }

  lemma PairsTimes(n: nat, b: nat)
    ensures n * (2 + b) == n * (1 + b) + n
  {
  }

  lemma LengthBelow(k: nat, n: nat, b: nat)
    ensures 32 * SafeLengthForCompressedPairBuf(k, n, b)
            < Low32(12 * n) + (n * (1 + b) + Shr(k, b)) + PairsPadding(b).len + 32
  {
    hide Shr, Low32, DivideLongsRoundingUp, PairsPadding;
    var y: nat := n * (1 + b) + Shr(k, b);
    WrapShrinks(y);
    RoundedUpWords(Low32(12 * n) + Low32(y) + PairsPadding(b).len);
  }

  lemma SafeWindowBuf(bytes: seq<nat>, enc: seq<nat>)
    requires AreSymbols(bytes, enc) && IsCode(enc)
    ensures EncodeBytes(bytes, enc).len + 11 <= 32 * SafeLengthForCompressedWindowBuf(|bytes|)
    ensures 32 * SafeLengthForCompressedWindowBuf(|bytes|) < 12 * |bytes| + 11 + 32
  {
    EncodedBytesLength(bytes, enc);
    RoundedUpWords(12 * |bytes| + 11);
    hide EncodeBytes, DivideLongsRoundingUp;
  }
}
