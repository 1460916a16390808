/** The lookup tables of kismet/crc32.cc, given by the recurrence the file states for them, and what
    their entries are: the register after a byte followed by a number of zero bytes. */
module Crc32Tables {
  import opened Gf2Words
  import opened Crc32Register

  /** Crc32Lookup[slice][b]. */
  function Lookup(slice: nat, b: bv8): bv32 {
    if slice == 0 then
      Zeros(8, b as bv32)
    else
      var prior := Lookup(slice - 1, b);
      Xor(DropByte(prior) as bv32, Lookup(0, LowByte(prior)))
  }

  /** `x & 0xFF` */
  function LowByte(x: bv32): bv8 {
    (x & 0xFF) as bv8
  }

  /** `x >> 8` */
  function DropByte(x: bv32): bv24 {
    (x >> 8) as bv24
  }

  /** k zero bytes clocked into the register. */
  function ZeroBytes(k: nat, crc: bv32): bv32 {
    Zeros(8 * k, crc)
  }

  lemma ZeroBytesLinear(k: nat, x: bv32, y: bv32)
    ensures ZeroBytes(k, Xor(x, y)) == Xor(ZeroBytes(k, x), ZeroBytes(k, y))
  {
    hide Xor, Zeros;
    ZerosLinear(8 * k, x, y);
  }

  lemma ZeroBytesAdd(j: nat, k: nat, x: bv32)
    ensures ZeroBytes(j + k, x) == ZeroBytes(k, ZeroBytes(j, x))
  {
    hide Zeros;
    ZerosAdd(8 * j, 8 * k, x);
    assert 8 * (j + k) == 8 * j + 8 * k;
  }

  lemma {:induction false} ZerosFirst(n: nat, x: bv32)
    ensures Zeros(n + 1, x) == Zeros(n, Step(x))
  {
    hide Step;
    if n != 0 {
      ZerosFirst(n - 1, x);
    }
  }

  /** A clear low bit is shifted out without feedback. */
  lemma ShiftOut(n: nat, x: bv32, y: bv32)
    requires !Odd(x) && Half(x) == y
    ensures Zeros(n + 1, x) == Zeros(n, y)
  {
    hide Odd, Half, Zeros, Xor;
    XorZero(y);
    ZerosFirst(n, x);
  }

  lemma ShiftOutFour(a: bv32, b: bv32, c: bv32, d: bv32, e: bv32)
    requires !Odd(a) && Half(a) == b
    requires !Odd(b) && Half(b) == c
    requires !Odd(c) && Half(c) == d
    requires !Odd(d) && Half(d) == e
    ensures Zeros(4, a) == e
  {
    hide Odd, Half, Step;
    ShiftOut(3, a, b);
    ShiftOut(2, b, c);
    ShiftOut(1, c, d);
    ShiftOut(0, d, e);
  }

  lemma HalvesOfShifted4(y: bv28)
    ensures !Odd((y as bv32) << 4) && Half((y as bv32) << 4) == (y as bv32) << 3
    ensures !Odd((y as bv32) << 3) && Half((y as bv32) << 3) == (y as bv32) << 2
    ensures !Odd((y as bv32) << 2) && Half((y as bv32) << 2) == (y as bv32) << 1
    ensures !Odd((y as bv32) << 1) && Half((y as bv32) << 1) == y as bv32
  {
  }

  lemma HalvesOfShifted8(y: bv24)
    ensures !Odd((y as bv32) << 8) && Half((y as bv32) << 8) == (y as bv32) << 7
    ensures !Odd((y as bv32) << 7) && Half((y as bv32) << 7) == (y as bv32) << 6
    ensures !Odd((y as bv32) << 6) && Half((y as bv32) << 6) == (y as bv32) << 5
    ensures !Odd((y as bv32) << 5) && Half((y as bv32) << 5) == (y as bv32) << 4
    ensures !Odd((y as bv32) << 4) && Half((y as bv32) << 4) == (y as bv32) << 3
    ensures !Odd((y as bv32) << 3) && Half((y as bv32) << 3) == (y as bv32) << 2
    ensures !Odd((y as bv32) << 2) && Half((y as bv32) << 2) == (y as bv32) << 1
    ensures !Odd((y as bv32) << 1) && Half((y as bv32) << 1) == y as bv32
  {
  }

  /** Four zero bits only shift a register whose low four bits are clear ... */
  lemma ZerosOfShifted4(y: bv28)
    ensures Zeros(4, (y as bv32) << 4) == y as bv32
  {
    hide *;
    HalvesOfShifted4(y);
    ShiftOutFour((y as bv32) << 4, (y as bv32) << 3, (y as bv32) << 2, (y as bv32) << 1, y as bv32);
  }

  /** ... and eight one whose low byte is. */
  lemma ZerosOfShifted8(y: bv24)
    ensures Zeros(8, (y as bv32) << 8) == y as bv32
  {
    hide *;
    HalvesOfShifted8(y);
    ShiftOutFour((y as bv32) << 8, (y as bv32) << 7, (y as bv32) << 6, (y as bv32) << 5, (y as bv32) << 4);
    ShiftOutFour((y as bv32) << 4, (y as bv32) << 3, (y as bv32) << 2, (y as bv32) << 1, y as bv32);
    ZerosAdd(4, 4, (y as bv32) << 8);
  }

  lemma ZerosOfPlacedByte(b: bv8)
    ensures Zeros(8, (b as bv32) << 8) == b as bv32
    ensures Zeros(8, (b as bv32) << 16) == (b as bv32) << 8
    ensures Zeros(8, (b as bv32) << 24) == (b as bv32) << 16
  {
    hide *;
    ZerosOfShifted8(b as bv24);
    ZerosOfShifted8((b as bv24) << 8);
    ZerosOfShifted8((b as bv24) << 16);
  }

  lemma LowByteSplit(x: bv32)
    ensures x == Xor((DropByte(x) as bv32) << 8, LowByte(x) as bv32)
  {
  }

  lemma LookupZero(b: bv8)
    ensures Lookup(0, b) == Zeros(8, b as bv32)
  {
    hide Zeros;
  }

  lemma ZerosOfSplit(x: bv32, y: bv24, b: bv8)
    requires x == Xor((y as bv32) << 8, b as bv32)
    ensures Zeros(8, x) == Xor(y as bv32, Lookup(0, b))
  {
    hide *;
    ZerosLinear(8, (y as bv32) << 8, b as bv32);
    ZerosOfShifted8(y);
    LookupZero(b);
  }

  /** The table step: eight zero bits are a shift and one lookup. */
  lemma ByteByLookup(x: bv32)
    ensures Zeros(8, x) == Xor(DropByte(x) as bv32, Lookup(0, LowByte(x)))
  {
    hide *;
    LowByteSplit(x);
    ZerosOfSplit(x, DropByte(x), LowByte(x));
  }

  /** Table k holds the register after a byte and k more zero bytes. */
  lemma {:induction false} LookupIsZeroBytes(k: nat, b: bv8)
    ensures Lookup(k, b) == ZeroBytes(k + 1, b as bv32)
  {
    hide Xor, Zeros, LowByte, DropByte;
    if k != 0 {
      LookupIsZeroBytes(k - 1, b);
      ByteByLookup(Lookup(k - 1, b));
      ZeroBytesAdd(k, 1, b as bv32);
    }
  }

  // ----- four bytes at once -----

  /** A 32-bit load on a little-endian machine. */
  function Word(b0: bv8, b1: bv8, b2: bv8, b3: bv8): bv32 {
    (b0 as bv32) | ((b1 as bv32) << 8) | ((b2 as bv32) << 16) | ((b3 as bv32) << 24)
  }

  /** The four lookups of a slicing step for one word, `slice` tables up. */
  function Slice(slice: nat, b0: bv8, b1: bv8, b2: bv8, b3: bv8): bv32 {
    Xor4(Lookup(slice, b3), Lookup(slice + 1, b2), Lookup(slice + 2, b1), Lookup(slice + 3, b0))
  }

  lemma WordSplit(b0: bv8, b1: bv8, b2: bv8, b3: bv8)
    ensures Word(b0, b1, b2, b3)
         == Xor4((b3 as bv32) << 24, (b2 as bv32) << 16, (b1 as bv32) << 8, b0 as bv32)
  {
  }

  lemma ZeroBytesLinear4(k: nat, a: bv32, b: bv32, c: bv32, d: bv32)
    ensures ZeroBytes(k, Xor4(a, b, c, d)) == Xor4(ZeroBytes(k, a), ZeroBytes(k, b), ZeroBytes(k, c), ZeroBytes(k, d))
  {
    hide Xor, ZeroBytes;
    ZeroBytesLinear(k, Xor(a, b), Xor(c, d));
    ZeroBytesLinear(k, a, b);
    ZeroBytesLinear(k, c, d);
  }

  /** A byte i places up needs i zero bytes to come down to the low end of the register. */
  lemma PlacedByteLookups(slice: nat, b: bv8)
    ensures ZeroBytes(slice + 1, b as bv32) == Lookup(slice, b)
    ensures ZeroBytes(slice + 2, (b as bv32) << 8) == Lookup(slice, b)
    ensures ZeroBytes(slice + 3, (b as bv32) << 16) == Lookup(slice, b)
    ensures ZeroBytes(slice + 4, (b as bv32) << 24) == Lookup(slice, b)
  {
    hide *;
    LookupIsZeroBytes(slice, b);
    PlacedByteFalls(b);
    ZeroBytesAdd(1, slice + 1, (b as bv32) << 8);
    ZeroBytesAdd(1, slice + 2, (b as bv32) << 16);
    ZeroBytesAdd(1, slice + 3, (b as bv32) << 24);
  }

  lemma PlacedByteFalls(b: bv8)
    ensures ZeroBytes(1, (b as bv32) << 8) == b as bv32
    ensures ZeroBytes(1, (b as bv32) << 16) == (b as bv32) << 8
    ensures ZeroBytes(1, (b as bv32) << 24) == (b as bv32) << 16
  {
    hide Zeros;
    ZerosOfPlacedByte(b);
  }

  /** Slicing: one word and `slice` zero bytes after it cost four lookups. */
  lemma SliceIsZeroBytes(slice: nat, b0: bv8, b1: bv8, b2: bv8, b3: bv8)
    ensures ZeroBytes(slice + 4, Word(b0, b1, b2, b3)) == Slice(slice, b0, b1, b2, b3)
  {
    hide *;
    WordSplit(b0, b1, b2, b3);
    PlacedByteLookups(slice, b3);
    PlacedByteLookups(slice + 1, b2);
    PlacedByteLookups(slice + 2, b1);
    PlacedByteLookups(slice + 3, b0);
    SliceFromParts(slice, b0, b1, b2, b3, (b3 as bv32) << 24, (b2 as bv32) << 16, (b1 as bv32) << 8, b0 as bv32);
  }

  lemma SliceFromParts(slice: nat, b0: bv8, b1: bv8, b2: bv8, b3: bv8, w3: bv32, w2: bv32, w1: bv32, w0: bv32)
    requires Word(b0, b1, b2, b3) == Xor4(w3, w2, w1, w0)
    requires ZeroBytes(slice + 4, w3) == Lookup(slice, b3)
    requires ZeroBytes(slice + 4, w2) == Lookup(slice + 1, b2)
    requires ZeroBytes(slice + 4, w1) == Lookup(slice + 2, b1)
    requires ZeroBytes(slice + 4, w0) == Lookup(slice + 3, b0)
    ensures ZeroBytes(slice + 4, Word(b0, b1, b2, b3)) == Slice(slice, b0, b1, b2, b3)
  {
    hide Xor4, ZeroBytes, Word, Lookup;
    ZeroBytesLinear4(slice + 4, w3, w2, w1, w0);
  }

  /** A later byte could as well have been mixed in early, placed where k zero bytes bring it down. */
  lemma AbsorbByte(k: nat, crc: bv32, b: bv8, placed: bv32)
    requires ZeroBytes(k, placed) == b as bv32
    ensures ByteStep(ZeroBytes(k, crc), b) == ZeroBytes(k + 1, Xor(crc, placed))
  {
    hide Xor, Zeros;
    ZeroBytesLinear(k, crc, placed);
    ZeroBytesAdd(k, 1, Xor(crc, placed));
  }

  lemma RunOne(crc: bv32, data: seq<bv8>, b: bv8)
    ensures Run(crc, data + [b]) == ByteStep(Run(crc, data), b)
  {
    hide ByteStep;
    assert (data + [b])[..|data|] == data;
  }

  lemma FirstByte(crc: bv32, b: bv8)
    ensures ByteStep(crc, b) == ZeroBytes(1, Xor(crc, b as bv32))
  {
    hide Xor, Zeros;
  }

  lemma PlacedByteFallsFar(b: bv8)
    ensures ZeroBytes(2, (b as bv32) << 16) == b as bv32
    ensures ZeroBytes(3, (b as bv32) << 24) == b as bv32
  {
    hide *;
    PlacedByteFalls(b);
    ZeroBytesAdd(1, 1, (b as bv32) << 16);
    ZeroBytesAdd(1, 2, (b as bv32) << 24);
    ZeroBytesAdd(1, 1, (b as bv32) << 16);
  }

  lemma RunFourPlaced(crc: bv32, b0: bv8, b1: bv8, b2: bv8, b3: bv8, w1: bv32, w2: bv32, w3: bv32)
    requires ZeroBytes(1, w1) == b1 as bv32 && ZeroBytes(2, w2) == b2 as bv32 && ZeroBytes(3, w3) == b3 as bv32
    ensures Run(crc, [b0, b1, b2, b3]) == ZeroBytes(4, Xor(Xor(Xor(Xor(crc, b0 as bv32), w1), w2), w3))
  {
    hide *;
    RunNone(crc);
    FirstByte(crc, b0);
    AbsorbByte(1, Xor(crc, b0 as bv32), b1, w1);
    AbsorbByte(2, Xor(Xor(crc, b0 as bv32), w1), b2, w2);
    AbsorbByte(3, Xor(Xor(Xor(crc, b0 as bv32), w1), w2), b3, w3);
    RunOne(crc, [], b0);
    RunOne(crc, [b0], b1);
    RunOne(crc, [b0, b1], b2);
    RunOne(crc, [b0, b1, b2], b3);
    assert [] + [b0] == [b0] && [b0] + [b1] == [b0, b1];
    assert [b0, b1] + [b2] == [b0, b1, b2] && [b0, b1, b2] + [b3] == [b0, b1, b2, b3];
  }

  lemma XorOfWord(crc: bv32, b0: bv8, b1: bv8, b2: bv8, b3: bv8)
    ensures Xor(Xor(Xor(Xor(crc, b0 as bv32), (b1 as bv32) << 8), (b2 as bv32) << 16), (b3 as bv32) << 24)
         == Xor(Word(b0, b1, b2, b3), crc)
  {
    hide Xor, Word;
    WordSplit(b0, b1, b2, b3);
    XorRegroup(crc, b0 as bv32, (b1 as bv32) << 8, (b2 as bv32) << 16, (b3 as bv32) << 24);
  }

  lemma XorRegroup(crc: bv32, a: bv32, b: bv32, c: bv32, d: bv32)
    ensures Xor(Xor(Xor(Xor(crc, a), b), c), d) == Xor(Xor4(d, c, b, a), crc)
  {
    hide Xor;
    XorAssociates(Xor(Xor(crc, a), b), c, d);
    XorAssociates(crc, a, b);
    XorAssociates(crc, Xor(a, b), Xor(c, d));
    XorCommutes(a, b);
    XorCommutes(c, d);
    XorCommutes(Xor(b, a), Xor(d, c));
    XorCommutes(crc, Xor(Xor(d, c), Xor(b, a)));
  }

  /** Four bytes of input are one little-endian word of input. */
  lemma RunWord(crc: bv32, b0: bv8, b1: bv8, b2: bv8, b3: bv8)
    ensures Run(crc, [b0, b1, b2, b3]) == ZeroBytes(4, Xor(Word(b0, b1, b2, b3), crc))
  {
    hide *;
    PlacedByteFalls(b1);
    PlacedByteFallsFar(b2);
    PlacedByteFallsFar(b3);
    RunFourPlaced(crc, b0, b1, b2, b3, (b1 as bv32) << 8, (b2 as bv32) << 16, (b3 as bv32) << 24);
    XorOfWord(crc, b0, b1, b2, b3);
  }
}
