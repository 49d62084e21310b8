/** Streaming XXHash64: a 32-byte buffer makes the result independent of how the input is cut into
    chunks (common/include/xxhash64.h). Words are numbers below 2^64, read little-endian. */
module XxHash64 {
  import opened Words

  type Byte = b: nat | b < 256

  const PRIME1 := 11400714785074694791
  const PRIME2 := 14029467366897019727
  const PRIME3 := 1609587929392839161
  const PRIME4 := 9650029242287828579
  const PRIME5 := 2870177450012600261
  const MAX_BUFFER_SIZE := 32

  // ----- 64-bit arithmetic -----

  function Wrap(x: int): nat {
    x % U64_SIZE
  }

  function RotateLeft(x: nat, bits: nat): nat
    requires bits <= 64
  {
    Bitwise(Or, Wrap(Shl(x, bits)), Shr(x, 64 - bits))
  }

  /** The number whose little-endian digits are the bytes. */
  function Word(bytes: seq<Byte>): nat {
    if bytes == [] then 0 else bytes[0] + 256 * Word(bytes[1..])
  }

  function ProcessSingle(previous: nat, input: nat): nat {
    Wrap(RotateLeft(Wrap(previous + input * PRIME2), 31) * PRIME1)
  }

  // ----- what the hash of a byte string is -----

  datatype Lanes = Lanes(s0: nat, s1: nat, s2: nat, s3: nat)

  function Start(seed: nat): Lanes {
    Lanes(Wrap(seed + PRIME1 + PRIME2), Wrap(seed + PRIME2), seed, Wrap(seed - PRIME1))
  }

  function Process(lanes: Lanes, block: seq<Byte>): Lanes
    requires |block| == 32
  {
    Lanes(ProcessSingle(lanes.s0, Word(block[0..8])), ProcessSingle(lanes.s1, Word(block[8..16])),
          ProcessSingle(lanes.s2, Word(block[16..24])), ProcessSingle(lanes.s3, Word(block[24..32])))
  }

  /** All complete 32-byte blocks, one after the other. */
  function Absorb(lanes: Lanes, bytes: seq<Byte>): Lanes
    decreases |bytes|
  {
    if |bytes| < 32 then lanes else Absorb(Process(lanes, bytes[..32]), bytes[32..])
  }

  /** What is left behind the last complete block. */
  function Remainder(bytes: seq<Byte>): seq<Byte> {
    if |bytes| < 32 then bytes else Remainder(bytes[32..])
  }

  lemma {:induction false} RemainderIs(bytes: seq<Byte>)
    ensures |Remainder(bytes)| == |bytes| % 32 && Remainder(bytes) == bytes[|bytes| - |bytes| % 32..]
  {
    if |bytes| >= 32 {
      RemainderIs(bytes[32..]);
      OneBlockLess(|bytes|);
      var n, r: nat := |bytes|, |bytes| % 32;
      hide Remainder;
      assert bytes[32..][n - 32 - r..] == bytes[n - r..];
    }
  }

  lemma OneBlockLess(n: nat)
    requires n >= 32
    ensures (n - 32) % 32 == n % 32 && n % 32 <= n - 32
  {
  }

  /** Only what has been left over matters to the bytes that follow. */
  lemma {:induction false} AbsorbCat(lanes: Lanes, a: seq<Byte>, b: seq<Byte>)
    ensures Absorb(lanes, a + b) == Absorb(Absorb(lanes, a), Remainder(a) + b)
    ensures Remainder(a + b) == Remainder(Remainder(a) + b)
    decreases |a|
  {
    if |a| >= 32 {
      assert (a + b)[..32] == a[..32] && (a + b)[32..] == a[32..] + b;
      AbsorbCat(Process(lanes, a[..32]), a[32..], b);
    }
  }

  function FoldLane(result: nat, lane: nat): nat {
    Wrap(Bitwise(Xor, result, ProcessSingle(0, lane)) * PRIME1 + PRIME4)
  }

  /** Four lanes in one word. */
  function Converge(lanes: Lanes): nat {
    var result := Wrap(RotateLeft(lanes.s0, 1) + RotateLeft(lanes.s1, 7) + RotateLeft(lanes.s2, 12) + RotateLeft(lanes.s3, 18));
    FoldLane(FoldLane(FoldLane(FoldLane(result, lanes.s0), lanes.s1), lanes.s2), lanes.s3)
  }

  function EatEight(result: nat, bytes: seq<Byte>): nat {
    Wrap(RotateLeft(Bitwise(Xor, result, ProcessSingle(0, Word(bytes))), 27) * PRIME1 + PRIME4)
  }

  function EatFour(result: nat, bytes: seq<Byte>): nat {
    Wrap(RotateLeft(Bitwise(Xor, result, Wrap(Word(bytes) * PRIME1)), 23) * PRIME2 + PRIME3)
  }

  function EatOne(result: nat, b: Byte): nat {
    Wrap(RotateLeft(Bitwise(Xor, result, Wrap(b * PRIME5)), 11) * PRIME1)
  }

  /** Eats the remaining bytes in pieces of 8, then perhaps 4, then 1. */
  function EatRest(result: nat, bytes: seq<Byte>): nat
    decreases |bytes|
  {
    if |bytes| >= 8 then EatRest(EatEight(result, bytes[..8]), bytes[8..])
    else if |bytes| >= 4 then EatRest(EatFour(result, bytes[..4]), bytes[4..])
    else if |bytes| >= 1 then EatRest(EatOne(result, bytes[0]), bytes[1..])
    else result
  }

  function MixBits(result: nat): nat {
    var a := Wrap(Bitwise(Xor, result, Shr(result, 33)) * PRIME2);
    var b := Wrap(Bitwise(Xor, a, Shr(a, 29)) * PRIME3);
    Bitwise(Xor, b, Shr(b, 32))
  }

  /** The hash, as a function of the whole input. */
  function HashOf(seed: nat, bytes: seq<Byte>): nat {
    var lanes, length := Absorb(Start(seed), bytes), Wrap(|bytes|);
    var folded := if length >= MAX_BUFFER_SIZE then Converge(lanes) else Wrap(lanes.s2 + PRIME5);
    MixBits(EatRest(Wrap(folded + length), Remainder(bytes)))
  }

  // ----- the hasher -----

  class XXHash64 {
    var state: Lanes
    var buffer: array<Byte>
    var bufferSize: nat
    var totalLength: nat
    ghost const seed: nat
    ghost var input: seq<Byte>

    ghost predicate Valid()
      reads this, buffer
    {
      && buffer.Length == MAX_BUFFER_SIZE
      && bufferSize < MAX_BUFFER_SIZE
      && buffer[..bufferSize] == Remainder(input)
      && state == Absorb(Start(seed), input)
      && totalLength == Wrap(|input|)
    }

    constructor (seed: nat)
      requires seed < U64_SIZE
      ensures Valid() && fresh(buffer) && this.seed == seed && input == []
    {
      this.seed := seed;
      state := Start(seed);
      buffer := new Byte[MAX_BUFFER_SIZE](_ => 0);
      bufferSize, totalLength := 0, 0;
      input := [];
    }

    /** Adds a chunk, after which the hasher is as if all bytes had come at once. */
    method Add(data: seq<Byte>) returns (added: bool)
      requires Valid() && MAX_BUFFER_SIZE + |data| <= U64_SIZE
      modifies this, buffer
      ensures Valid() && buffer == old(buffer) && input == old(input) + data && added == (|data| > 0)
    {
      hide Absorb, Process, Start, Remainder;
      if |data| == 0 {
        assert input + data == input;
        return false;
      }
      ghost var rest := buffer[..bufferSize] + data;
      AbsorbCat(Start(seed), input, data);
      WrapSum(|input|, |data|);
      totalLength := Wrap(totalLength + |data|);
      input := input + data;
      // no block is complete yet
      if bufferSize + |data| < MAX_BUFFER_SIZE {
        ShortRest(state, rest);
        Keep(data, 0);
      } else {
        var pos := FillBuffer(data, rest);
        pos := AbsorbBlocks(data, pos);
        // keep what does not fill a block
        ShortRest(state, data[pos..]);
        bufferSize := 0;
        Keep(data, pos);
      }
      return true;
    }

    /** Appends the rest of the data to the buffer. */
    method Keep(data: seq<Byte>, pos: nat)
      requires pos <= |data| && buffer.Length == MAX_BUFFER_SIZE && bufferSize + (|data| - pos) < MAX_BUFFER_SIZE
      modifies this`bufferSize, buffer
      ensures bufferSize == old(bufferSize) + (|data| - pos)
      ensures buffer[..bufferSize] == old(buffer[..bufferSize]) + data[pos..]
    {
      for i := pos to |data|
        invariant bufferSize == old(bufferSize) + (i - pos) && bufferSize + (|data| - i) < MAX_BUFFER_SIZE
        invariant buffer[..bufferSize] == old(buffer[..bufferSize]) + data[pos..i]
      {
        buffer[bufferSize] := data[i];
        bufferSize := bufferSize + 1;
        assert buffer[..bufferSize] == buffer[..bufferSize - 1] + [data[i]];
        assert data[pos..i + 1] == data[pos..i] + [data[i]];
      }
      assert data[pos..|data|] == data[pos..];
    }

    /** Completes and processes the block that an earlier chunk began, if any. */
    method FillBuffer(data: seq<Byte>, ghost rest: seq<Byte>) returns (pos: nat)
      requires buffer.Length == MAX_BUFFER_SIZE && bufferSize < MAX_BUFFER_SIZE <= bufferSize + |data|
      requires rest == buffer[..bufferSize] + data
      modifies this`state, this`bufferSize, buffer
      ensures pos <= |data|
      ensures Absorb(state, data[pos..]) == Absorb(old(state), rest) && Remainder(data[pos..]) == Remainder(rest)
    {
      hide Absorb, Process, Remainder;
      pos := 0;
      assert data[0..] == data;
      if bufferSize > 0 {
        // complete the block that has been begun
        while bufferSize < MAX_BUFFER_SIZE
          invariant bufferSize <= MAX_BUFFER_SIZE && pos <= |data| && bufferSize + (|data| - pos) >= MAX_BUFFER_SIZE
          invariant buffer[..bufferSize] + data[pos..] == rest && state == old(state)
        {
          hide Absorb, Process, Remainder;
          ghost var before := buffer[..bufferSize];
          buffer[bufferSize] := data[pos];
          bufferSize := bufferSize + 1;
          assert buffer[..bufferSize] == before + [data[pos]];
          assert data[pos..] == [data[pos]] + data[pos + 1..];
          pos := pos + 1;
        }
        assert buffer[..] == buffer[..bufferSize];
        BlockFirst(state, buffer[..], data[pos..]);
        state := Process(state, buffer[..]);
      } else {
        assert rest == data;
      }
    }

    /** Absorbs the whole blocks that the input holds from a position on, and says where they end. */
    method AbsorbBlocks(data: seq<Byte>, start: nat) returns (pos: nat)
      requires start <= |data|
      modifies this`state
      ensures pos <= |data| < pos + MAX_BUFFER_SIZE
      ensures Absorb(state, data[pos..]) == Absorb(old(state), data[start..]) && Remainder(data[pos..]) == Remainder(data[start..])
    {
      hide Absorb, Process, Remainder;
      var lanes := state; // a copy that the loop works on
      pos := start;
      while pos + MAX_BUFFER_SIZE <= |data|
        invariant pos <= |data| && state == old(state)
        invariant Absorb(lanes, data[pos..]) == Absorb(state, data[start..]) && Remainder(data[pos..]) == Remainder(data[start..])
      {
        hide Absorb, Process, Remainder;
        Piece(data, pos, 32);
        BlockFirst(lanes, data[pos..pos + 32], data[pos + 32..]);
        lanes := Process(lanes, data[pos..pos + 32]);
        pos := pos + 32;
      }
      state := lanes;
    }

    method Hash() returns (result: nat)
      requires Valid()
      ensures result == HashOf(seed, input)
    {
      hide Absorb, Process, Remainder, Converge, MixBits, Wrap, Start, EatRest, HashOf;
      HashParts(seed, input);
      if totalLength >= MAX_BUFFER_SIZE {
        result := Converge(state);
      } else {
        // no block has been processed: only the third word still is the seed
        result := Wrap(state.s2 + PRIME5);
      }
      result := Wrap(result + totalLength);
      result := EatBuffer(result, buffer[..bufferSize]);
      result := MixBits(result);
    }
  }

  lemma HashParts(seed: nat, bytes: seq<Byte>)
    ensures var lanes, length := Absorb(Start(seed), bytes), Wrap(|bytes|);
            var folded := if length >= MAX_BUFFER_SIZE then Converge(lanes) else Wrap(lanes.s2 + PRIME5);
            HashOf(seed, bytes) == MixBits(EatRest(Wrap(folded + length), Remainder(bytes)))
  {
    hide Absorb, Remainder, Converge, MixBits, Wrap, Start, EatRest;
  }

  /** What is left in the buffer: whole words of 8 bytes, perhaps one of 4, and single bytes. */
  method EatBuffer(folded: nat, data: seq<Byte>) returns (result: nat)
    ensures result == EatRest(folded, data)
  {
    hide EatRest, EatEight, EatFour, EatOne;
    result := folded;
    var pos := 0;
    assert data[0..] == data;
    while pos + 8 <= |data|
      invariant pos <= |data| && EatRest(result, data[pos..]) == EatRest(folded, data)
    {
      hide EatRest, EatEight, EatFour, EatOne;
      NextEight(result, data, pos);
      result := EatEight(result, data[pos..pos + 8]);
      pos := pos + 8;
    }
    if pos + 4 <= |data| {
      NextFour(result, data, pos);
      result := EatFour(result, data[pos..pos + 4]);
      pos := pos + 4;
    }
    while pos != |data|
      invariant pos <= |data| < pos + 4 && EatRest(result, data[pos..]) == EatRest(folded, data)
      decreases |data| - pos
    {
      hide EatRest, EatEight, EatFour, EatOne;
      NextOne(result, data, pos);
      result := EatOne(result, data[pos]);
      pos := pos + 1;
    }
    assert data[|data|..] == [];
    NothingToEat(result);
  }

  lemma NextEight(result: nat, data: seq<Byte>, pos: nat)
    requires pos + 8 <= |data|
    ensures EatRest(result, data[pos..]) == EatRest(EatEight(result, data[pos..pos + 8]), data[pos + 8..])
  {
    Piece(data, pos, 8);
    hide EatEight, EatFour, EatOne;
  }

  lemma NextFour(result: nat, data: seq<Byte>, pos: nat)
    requires pos + 4 <= |data| < pos + 8
    ensures EatRest(result, data[pos..]) == EatRest(EatFour(result, data[pos..pos + 4]), data[pos + 4..])
  {
    Piece(data, pos, 4);
    hide EatEight, EatFour, EatOne;
  }

  lemma NextOne(result: nat, data: seq<Byte>, pos: nat)
    requires pos < |data| < pos + 4
    ensures EatRest(result, data[pos..]) == EatRest(EatOne(result, data[pos]), data[pos + 1..])
  {
    Piece(data, pos, 1);
    hide EatEight, EatFour, EatOne;
  }

  lemma NothingToEat(result: nat)
    ensures EatRest(result, []) == result
  {
  }

  lemma ShortRest(lanes: Lanes, rest: seq<Byte>)
    requires |rest| < 32
    ensures Absorb(lanes, rest) == lanes && Remainder(rest) == rest
  {
  }

  lemma BlockFirst(lanes: Lanes, block: seq<Byte>, rest: seq<Byte>)
    requires |block| == 32
    ensures Absorb(lanes, block + rest) == Absorb(Process(lanes, block), rest) && Remainder(block + rest) == Remainder(rest)
  {
    assert (block + rest)[..32] == block && (block + rest)[32..] == rest;
  }

  lemma Piece(data: seq<Byte>, pos: nat, n: nat)
    requires pos + n <= |data|
    ensures data[pos..][..n] == data[pos..pos + n] && data[pos..][n..] == data[pos + n..]
    ensures data[pos..] == data[pos..pos + n] + data[pos + n..]
  {
  }

  lemma WrapSum(x: nat, y: nat)
    ensures Wrap(Wrap(x) + y) == Wrap(x + y)
  {
  }

  /** An input shorter than a block leaves the seed in its lane. */
  lemma ShortInputs(seed: nat, bytes: seq<Byte>)
    requires |bytes| < MAX_BUFFER_SIZE
    ensures HashOf(seed, bytes) == MixBits(EatRest(Wrap(Wrap(seed + PRIME5) + |bytes|), bytes))
  {
    hide MixBits, EatRest, Wrap, Absorb, Remainder, Converge;
    ShortRest(Start(seed), bytes);
    SmallWrap(|bytes|);
  }

  lemma SmallWrap(x: nat)
    requires x < MAX_BUFFER_SIZE
    ensures Wrap(x) == x
  {
  }

  // ----- chunks -----

  function Concat(chunks: seq<seq<Byte>>): seq<Byte> {
    if chunks == [] then [] else chunks[0] + Concat(chunks[1..])
  }

  /** However the input is cut into chunks, empty ones included, its hash is the same. */
  method HashChunks(seed: nat, chunks: seq<seq<Byte>>) returns (result: nat)
    requires seed < U64_SIZE
    requires forall i | 0 <= i < |chunks| :: MAX_BUFFER_SIZE + |chunks[i]| <= U64_SIZE
    ensures result == HashOf(seed, Concat(chunks))
  {
    hide HashOf, XXHash64.Valid;
    var hasher := new XXHash64(seed);
    assert chunks[0..] == chunks;
    for i := 0 to |chunks|
      invariant fresh(hasher) && fresh(hasher.buffer) && hasher.Valid() && hasher.input + Concat(chunks[i..]) == Concat(chunks)
    {
      hide HashOf, XXHash64.Valid;
      assert chunks[i..][1..] == chunks[i + 1..];
      var added := hasher.Add(chunks[i]);
    }
    assert hasher.input == Concat(chunks);
    result := hasher.Hash();
  }
}
