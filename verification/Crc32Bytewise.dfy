/** The loop bodies of the byte-at-a-time variants in kismet/crc32.cc: each is one `ByteStep`. */
module Crc32Bytewise {
  import opened Gf2Words
  import opened Crc32Register
  import opened Crc32Tables

  /** The bit step without a branch, as `crc32_bitwise` writes it. */
  function BranchFreeStep(crc: bv32): bv32 {
    (crc >> 1) ^ ((0 - (crc & 1)) & POLYNOMIAL)
  }

  lemma BranchFreeIsStep(crc: bv32)
    ensures BranchFreeStep(crc) == Step(crc)
  {
    if Odd(crc) {
      assert (0 - (crc & 1)) & POLYNOMIAL == POLYNOMIAL;
    } else {
      assert crc & 1 == 0;
    }
  }

  /** The body of `crc32_1byte`, also the byte tail of every slicing variant. */
  function TableStep(crc: bv32, b: bv8): bv32 {
    (crc >> 8) ^ Lookup(0, ((crc & 0xFF) ^ (b as bv32)) as bv8)
  }

  lemma TableStepIsByteStep(crc: bv32, b: bv8)
    ensures TableStep(crc, b) == ByteStep(crc, b)
  {
    hide Xor, Zeros, Lookup, LowByte, DropByte;
    IndexOfMixed(crc, b);
    ByteByLookup(Xor(crc, b as bv32));
    TableStepParts(crc, b);
  }

  lemma IndexOfMixed(crc: bv32, b: bv8)
    ensures DropByte(Xor(crc, b as bv32)) as bv32 == crc >> 8
    ensures LowByte(Xor(crc, b as bv32)) == ((crc & 0xFF) ^ (b as bv32)) as bv8
    ensures LowByte(Xor(crc, b as bv32)) == ((crc & 0xFF) as bv8) ^ b
  {
  }

  lemma TableStepParts(crc: bv32, b: bv8)
    ensures TableStep(crc, b) == Xor(crc >> 8, Lookup(0, ((crc & 0xFF) ^ (b as bv32)) as bv8))
  {
    hide Lookup;
  }

  // ----- the columns: the register after a single bit -----

  function Column(bit: bool, k: bv32): bv32 {
    if bit then k else 0
  }

  lemma StepsOfOne()
    ensures Step(1) == 0xEDB88320
    ensures Step(0xEDB88320) == 0x76DC4190
    ensures Step(0x76DC4190) == 0x3B6E20C8
    ensures Step(0x3B6E20C8) == 0x1DB71064
    ensures Step(0x1DB71064) == 0x0EDB8832
    ensures Step(0x0EDB8832) == 0x076DC419
    ensures Step(0x076DC419) == 0xEE0E612C
    ensures Step(0xEE0E612C) == 0x77073096
  {
  }

  lemma ZerosOfOne()
    ensures Zeros(1, 1) == 0xEDB88320 && Zeros(2, 1) == 0x76DC4190
    ensures Zeros(3, 1) == 0x3B6E20C8 && Zeros(4, 1) == 0x1DB71064
    ensures Zeros(5, 1) == 0x0EDB8832 && Zeros(6, 1) == 0x076DC419
    ensures Zeros(7, 1) == 0xEE0E612C && Zeros(8, 1) == 0x77073096
  {
    hide Step;
    StepsOfOne();
    ZerosNone(1);
  }

  lemma HalvesOfPowers()
    ensures !Odd(0x80) && Half(0x80) == 0x40 && !Odd(0x40) && Half(0x40) == 0x20
    ensures !Odd(0x20) && Half(0x20) == 0x10 && !Odd(0x10) && Half(0x10) == 8
    ensures !Odd(8) && Half(8) == 4 && !Odd(4) && Half(4) == 2 && !Odd(2) && Half(2) == 1
  {
  }

  lemma ColumnsOfByte()
    ensures Zeros(8, 0x80) == 0xEDB88320 && Zeros(8, 0x40) == 0x76DC4190
    ensures Zeros(8, 0x20) == 0x3B6E20C8 && Zeros(8, 0x10) == 0x1DB71064
    ensures Zeros(8, 8) == 0x0EDB8832 && Zeros(8, 4) == 0x076DC419
    ensures Zeros(8, 2) == 0xEE0E612C && Zeros(8, 1) == 0x77073096
    ensures Zeros(4, 8) == 0xEDB88320 && Zeros(4, 4) == 0x76DC4190
    ensures Zeros(4, 2) == 0x3B6E20C8 && Zeros(4, 1) == 0x1DB71064
  {
    hide Odd, Half, Zeros;
    HalvesOfPowers();
    ZerosOfOne();
    ShiftOut(7, 0x80, 0x40); ShiftOut(6, 0x40, 0x20); ShiftOut(5, 0x20, 0x10); ShiftOut(4, 0x10, 8);
    ShiftOut(3, 8, 4); ShiftOut(2, 4, 2); ShiftOut(1, 2, 1);
    ShiftOut(7, 0x40, 0x20); ShiftOut(6, 0x20, 0x10); ShiftOut(5, 0x10, 8); ShiftOut(4, 8, 4);
    ShiftOut(3, 4, 2); ShiftOut(2, 2, 1);
    ShiftOut(7, 0x20, 0x10); ShiftOut(6, 0x10, 8); ShiftOut(5, 8, 4); ShiftOut(4, 4, 2); ShiftOut(3, 2, 1);
    ShiftOut(7, 0x10, 8); ShiftOut(6, 8, 4); ShiftOut(5, 4, 2); ShiftOut(4, 2, 1);
    ShiftOut(7, 8, 4); ShiftOut(6, 4, 2); ShiftOut(5, 2, 1);
    ShiftOut(7, 4, 2); ShiftOut(6, 2, 1);
    ShiftOut(7, 2, 1);
  }

  lemma ZerosOfColumn(n: nat, bit: bool, p: bv32)
    ensures Zeros(n, Column(bit, p)) == Column(bit, Zeros(n, p))
  {
    hide Zeros;
    ZerosOfZero(n);
  }

  lemma ZerosLinear4(n: nat, a: bv32, b: bv32, c: bv32, d: bv32)
    ensures Zeros(n, Xor4(a, b, c, d)) == Xor4(Zeros(n, a), Zeros(n, b), Zeros(n, c), Zeros(n, d))
  {
    hide Xor, Zeros;
    ZerosLinear(n, Xor(a, b), Xor(c, d));
    ZerosLinear(n, a, b);
    ZerosLinear(n, c, d);
  }

  /** Four columns at once, most significant bit first. */
  lemma ZerosOfFourBits(n: nat, p3: bv32, p2: bv32, p1: bv32, p0: bv32, b3: bool, b2: bool, b1: bool, b0: bool)
    ensures Zeros(n, Xor4(Column(b3, p3), Column(b2, p2), Column(b1, p1), Column(b0, p0)))
         == Xor4(Column(b3, Zeros(n, p3)), Column(b2, Zeros(n, p2)), Column(b1, Zeros(n, p1)), Column(b0, Zeros(n, p0)))
  {
    hide *;
    ZerosLinear4(n, Column(b3, p3), Column(b2, p2), Column(b1, p1), Column(b0, p0));
    ZerosOfColumn(n, b3, p3);
    ZerosOfColumn(n, b2, p2);
    ZerosOfColumn(n, b1, p1);
    ZerosOfColumn(n, b0, p0);
  }

  // ----- half-byte -----

  const LOOKUP16: seq<bv32> := [
    0x00000000, 0x1DB71064, 0x3B6E20C8, 0x26D930AC, 0x76DC4190, 0x6B6B51F4, 0x4DB26158, 0x5005713C,
    0xEDB88320, 0xF00F9344, 0xD6D6A3E8, 0xCB61B38C, 0x9B64C2B0, 0x86D3D2D4, 0xA00AE278, 0xBDBDF21C
  ]

  /** `Crc32Lookup16[n]` */
  function Entry(n: bv4): bv32 {
    LOOKUP16[n as nat]
  }

  /** `Crc32Lookup16[index] ^ (crc >> 4)` */
  function NibbleStep(crc: bv32, index: bv4): bv32 {
    Entry(index) ^ (crc >> 4)
  }

  /** The body of `crc32_halfbyte`. */
  function HalfByteStep(crc: bv32, b: bv8): bv32 {
    var low := NibbleStep(crc, Nibble(crc ^ (b as bv32)));
    NibbleStep(low, Nibble(low ^ ((b >> 4) as bv32)))
  }

  function Nibble(x: bv32): bv4 {
    (x & 0xF) as bv4
  }

  predicate Bit(b: bv8, mask: bv8) {
    b & mask == mask
  }

  function NibbleColumns(n: bv4): bv32 {
    Xor4(Column(n & 8 == 8, 0xEDB88320), Column(n & 4 == 4, 0x76DC4190),
         Column(n & 2 == 2, 0x3B6E20C8), Column(n & 1 == 1, 0x1DB71064))
  }

  lemma NibbleBits(n: bv4)
    ensures n as bv32
         == Xor4(Column(n & 8 == 8, 8), Column(n & 4 == 4, 4), Column(n & 2 == 2, 2), Column(n & 1 == 1, 1))
  {
  }

  lemma ZerosOfNibble(n: bv4)
    ensures Zeros(4, n as bv32) == NibbleColumns(n)
  {
    hide Zeros, Xor4, Column;
    ColumnsOfByte();
    NibbleBits(n);
    ZerosOfFourBits(4, 8, 4, 2, 1, n & 8 == 8, n & 4 == 4, n & 2 == 2, n & 1 == 1);
  }

  lemma TableOfNibble(n: bv4)
    ensures Entry(n) == NibbleColumns(n)
  {
  }

  /** `x >> 4` */
  function DropNibble(x: bv32): bv28 {
    (x >> 4) as bv28
  }

  lemma LowNibbleSplit(x: bv32)
    ensures x == Xor((DropNibble(x) as bv32) << 4, Nibble(x) as bv32)
  {
  }

  /** The half-byte step: four zero bits are a shift and one lookup. */
  lemma NibbleByLookup(x: bv32, y: bv28, n: bv4)
    requires x == Xor((y as bv32) << 4, n as bv32)
    ensures Zeros(4, x) == Xor(y as bv32, Entry(n))
  {
    hide *;
    ZerosLinear(4, (y as bv32) << 4, n as bv32);
    ZerosOfShifted4(y);
    ZerosOfNibble(n);
    TableOfNibble(n);
  }

  lemma MixedNibble(x: bv32, n: bv4)
    ensures DropNibble(Xor(x, n as bv32)) as bv32 == x >> 4
  {
  }

  lemma NibbleStepIsXor(crc: bv32, index: bv4)
    ensures NibbleStep(crc, index) == Xor(Entry(index), crc >> 4)
  {
  }

  lemma NibbleStepIsZeros(crc: bv32, n: bv4)
    ensures NibbleStep(crc, Nibble(Xor(crc, n as bv32))) == Zeros(4, Xor(crc, n as bv32))
  {
    hide *;
    NibbleStepAt(crc, Xor(crc, n as bv32), n);
  }

  lemma ZerosByNibble(x: bv32)
    ensures Zeros(4, x) == Xor(DropNibble(x) as bv32, Entry(Nibble(x)))
  {
    hide *;
    LowNibbleSplit(x);
    NibbleByLookup(x, DropNibble(x), Nibble(x));
  }

  lemma NibbleStepAt(crc: bv32, x: bv32, n: bv4)
    requires x == Xor(crc, n as bv32)
    ensures NibbleStep(crc, Nibble(x)) == Zeros(4, x)
  {
    hide *;
    MixedNibble(crc, n);
    ZerosByNibble(x);
    NibbleStepIsXor(crc, Nibble(x));
    Swapped(Zeros(4, x), DropNibble(x) as bv32, Entry(Nibble(x)), crc >> 4, NibbleStep(crc, Nibble(x)));
  }

  lemma Swapped(zeros: bv32, rest: bv32, entry: bv32, shifted: bv32, step: bv32)
    requires zeros == Xor(rest, entry) && rest == shifted && step == Xor(entry, shifted)
    ensures step == zeros
  {
    hide *;
    XorCommutes(entry, shifted);
  }

  function LowNibble(b: bv8): bv4 {
    (b & 0xF) as bv4
  }

  function HighNibble(b: bv8): bv4 {
    (b >> 4) as bv4
  }

  lemma NibblesOfByte(crc: bv32, low: bv32, b: bv8)
    ensures Xor(crc, b as bv32) == Xor(Xor(crc, LowNibble(b) as bv32), ((HighNibble(b) as bv28) as bv32) << 4)
    ensures Nibble(crc ^ (b as bv32)) == Nibble(Xor(crc, LowNibble(b) as bv32))
    ensures Nibble(low ^ ((b >> 4) as bv32)) == Nibble(Xor(low, HighNibble(b) as bv32))
  {
  }

  lemma HalfByteStepIsByteStep(crc: bv32, b: bv8)
    ensures HalfByteStep(crc, b) == ByteStep(crc, b)
  {
    hide Xor, Zeros, Nibble, NibbleStep, LowNibble, HighNibble, Entry;
    HalfByteStepIs(crc, b);
    var low := NibbleStep(crc, Nibble(crc ^ (b as bv32)));
    NibblesOfByte(crc, low, b);
    hide HalfByteStep, ByteStep;
    ByteStepIs(crc, b);
    HalfByteStepParts(crc, b, Xor(crc, b as bv32), low, LowNibble(b), HighNibble(b));
  }

  lemma HalfByteStepIs(crc: bv32, b: bv8)
    ensures
      var low := NibbleStep(crc, Nibble(crc ^ (b as bv32)));
      HalfByteStep(crc, b) == NibbleStep(low, Nibble(low ^ ((b >> 4) as bv32)))
  {
    hide Nibble, NibbleStep;
  }

  lemma HalfByteStepParts(crc: bv32, b: bv8, x: bv32, low: bv32, lo: bv4, hi: bv4)
    requires x == Xor(Xor(crc, lo as bv32), ((hi as bv28) as bv32) << 4)
    requires low == NibbleStep(crc, Nibble(Xor(crc, lo as bv32)))
    ensures NibbleStep(low, Nibble(Xor(low, hi as bv32))) == Zeros(8, x)
  {
    hide *;
    NibbleStepIsZeros(crc, lo);
    NibbleStepIsZeros(low, hi);
    ZerosAdd(4, 4, x);
    ZerosLinear(4, Xor(crc, lo as bv32), ((hi as bv28) as bv32) << 4);
    ZerosOfShifted4(hi as bv28);
  }

  // ----- without tables -----

  /** The seven low columns and the top one, as masks of the byte's bits. */
  function ByteColumns(b: bv8): bv32 {
    Xor(Xor4(Column(Bit(b, 0x80), 0xEDB88320), Column(Bit(b, 0x40), 0x76DC4190),
             Column(Bit(b, 0x20), 0x3B6E20C8), Column(Bit(b, 0x10), 0x1DB71064)),
        Xor4(Column(Bit(b, 8), 0x0EDB8832), Column(Bit(b, 4), 0x076DC419),
             Column(Bit(b, 2), 0xEE0E612C), Column(Bit(b, 1), 0x77073096)))
  }

  lemma ColumnsOfBits(b: bv8)
    ensures Column(Bit(b, 0x80), 0x80) == (b & 0x80) as bv32 && Column(Bit(b, 0x40), 0x40) == (b & 0x40) as bv32
    ensures Column(Bit(b, 0x20), 0x20) == (b & 0x20) as bv32 && Column(Bit(b, 0x10), 0x10) == (b & 0x10) as bv32
    ensures Column(Bit(b, 8), 8) == (b & 8) as bv32 && Column(Bit(b, 4), 4) == (b & 4) as bv32
    ensures Column(Bit(b, 2), 2) == (b & 2) as bv32 && Column(Bit(b, 1), 1) == (b & 1) as bv32
  {
  }

  lemma MasksOfByte(b: bv8)
    ensures b as bv32
         == Xor(Xor4((b & 0x80) as bv32, (b & 0x40) as bv32, (b & 0x20) as bv32, (b & 0x10) as bv32),
                Xor4((b & 8) as bv32, (b & 4) as bv32, (b & 2) as bv32, (b & 1) as bv32))
  {
  }

  lemma ByteBits(b: bv8)
    ensures b as bv32
         == Xor(Xor4(Column(Bit(b, 0x80), 0x80), Column(Bit(b, 0x40), 0x40), Column(Bit(b, 0x20), 0x20), Column(Bit(b, 0x10), 0x10)),
                Xor4(Column(Bit(b, 8), 8), Column(Bit(b, 4), 4), Column(Bit(b, 2), 2), Column(Bit(b, 1), 1)))
  {
    hide *;
    ColumnsOfBits(b);
    MasksOfByte(b);
  }

  lemma ZerosOfByte(b: bv8)
    ensures Zeros(8, b as bv32) == ByteColumns(b)
  {
    hide Zeros, Xor, Xor4, Column, Bit;
    ColumnsOfByte();
    ByteBits(b);
    ZerosOfFourBits(8, 0x80, 0x40, 0x20, 0x10, Bit(b, 0x80), Bit(b, 0x40), Bit(b, 0x20), Bit(b, 0x10));
    ZerosOfFourBits(8, 8, 4, 2, 1, Bit(b, 8), Bit(b, 4), Bit(b, 2), Bit(b, 1));
    ZerosLinear(8,
      Xor4(Column(Bit(b, 0x80), 0x80), Column(Bit(b, 0x40), 0x40), Column(Bit(b, 0x20), 0x20), Column(Bit(b, 0x10), 0x10)),
      Xor4(Column(Bit(b, 8), 8), Column(Bit(b, 4), 4), Column(Bit(b, 2), 2), Column(Bit(b, 1), 1)));
  }

  /** `(s ^ (s << 6)) & 0xFF` for `s = uint8_t(crc) ^ b` */
  function Folded(s: bv8): bv8 {
    (((s as bv32) ^ ((s as bv32) << 6)) & 0xFF) as bv8
  }

  /** The exclusive-or chain of `crc32_1byte_tableless`; m, a and n are its three products. */
  function TablelessChain(top: bv32, m: bv32, a: bv32, n: bv32, low: bv32): bv32 {
    top ^ m ^ a ^ (a >> 1) ^ n ^ (low << 19) ^ (low << 17) ^ (low >> 2)
  }

  /** The chain with its products filled in. */
  function TablelessMix(top: bv32, low: bv32): bv32 {
    TablelessChain(top, low * 0x101_0100, low * 0x80_4004, low * 0x10_1000, low)
  }

  /** The body of `crc32_1byte_tableless`. */
  function TablelessStep(crc: bv32, b: bv8): bv32 {
    TablelessMix(crc >> 8, Folded(((crc & 0xFF) as bv8) ^ b) as bv32)
  }

  /** The same remainder with the products written as shifts. */
  function ShiftColumns(low: bv32): bv32 {
    (low << 24) ^ (low << 16) ^ (low << 8) ^
    (low << 23) ^ (low << 14) ^ (low << 2) ^
    (((low << 23) ^ (low << 14) ^ (low << 2)) >> 1) ^
    (low << 20) ^ (low << 12) ^ (low << 19) ^ (low << 17) ^ (low >> 2)
  }

  /** The multiplications do not carry: the shifted copies of `low` do not overlap. */
  lemma CarryFree(low: bv8)
    ensures (low as bv32) * 0x101_0100 == ((low as bv32) << 24) ^ ((low as bv32) << 16) ^ ((low as bv32) << 8)
    ensures (low as bv32) * 0x80_4004 == ((low as bv32) << 23) ^ ((low as bv32) << 14) ^ ((low as bv32) << 2)
    ensures (low as bv32) * 0x10_1000 == ((low as bv32) << 20) ^ ((low as bv32) << 12)
  {
  }

  /** The low bit of `bit`, spread over a word, selects c. */
  function Masked(bit: bv8, c: bv32): bv32 {
    (0 - ((bit & 1) as bv32)) & c
  }

  function ByteMasks(s: bv8): bv32 {
    Xor(Xor4(Masked(s >> 7, 0xEDB88320), Masked(s >> 6, 0x76DC4190), Masked(s >> 5, 0x3B6E20C8), Masked(s >> 4, 0x1DB71064)),
        Xor4(Masked(s >> 3, 0x0EDB8832), Masked(s >> 2, 0x076DC419), Masked(s >> 1, 0xEE0E612C), Masked(s, 0x77073096)))
  }

  lemma ShiftColumnsAreMasks(s: bv8)
    ensures ShiftColumns(Folded(s) as bv32) == ByteMasks(s)
  {
  }

  lemma MaskedCases(bit: bv8, c: bv32)
    ensures bit & 1 == 1 ==> Masked(bit, c) == c
    ensures bit & 1 != 1 ==> Masked(bit, c) == 0
  {
    if bit & 1 == 1 {
      assert 0 - (1 as bv32) == ONES;
    } else {
      assert bit & 1 == 0;
    }
  }

  lemma BitsByShift(s: bv8)
    ensures Bit(s, 0x80) <==> (s >> 7) & 1 == 1
    ensures Bit(s, 0x40) <==> (s >> 6) & 1 == 1
    ensures Bit(s, 0x20) <==> (s >> 5) & 1 == 1
    ensures Bit(s, 0x10) <==> (s >> 4) & 1 == 1
    ensures Bit(s, 8) <==> (s >> 3) & 1 == 1
    ensures Bit(s, 4) <==> (s >> 2) & 1 == 1
    ensures Bit(s, 2) <==> (s >> 1) & 1 == 1
    ensures Bit(s, 1) <==> s & 1 == 1
  {
  }

  lemma MaskedIsColumn(s: bv8, bit: bv8, mask: bv8, c: bv32)
    requires Bit(s, mask) <==> bit & 1 == 1
    ensures Masked(bit, c) == Column(Bit(s, mask), c)
  {
    hide Masked, Bit;
    MaskedCases(bit, c);
  }

  lemma ShiftColumnsAreByteColumns(s: bv8)
    ensures ShiftColumns(Folded(s) as bv32) == ByteColumns(s)
  {
    hide Masked, Column, Bit, Xor, Xor4, ShiftColumns, Folded;
    ShiftColumnsAreMasks(s);
    BitsByShift(s);
    MaskedIsColumn(s, s >> 7, 0x80, 0xEDB88320);
    MaskedIsColumn(s, s >> 6, 0x40, 0x76DC4190);
    MaskedIsColumn(s, s >> 5, 0x20, 0x3B6E20C8);
    MaskedIsColumn(s, s >> 4, 0x10, 0x1DB71064);
    MaskedIsColumn(s, s >> 3, 8, 0x0EDB8832);
    MaskedIsColumn(s, s >> 2, 4, 0x076DC419);
    MaskedIsColumn(s, s >> 1, 2, 0xEE0E612C);
    MaskedIsColumn(s, s, 1, 0x77073096);
  }

  /** Everything in the tableless step but the shifted register. */
  function Products(m: bv32, a: bv32, n: bv32, low: bv32): bv32 {
    m ^ a ^ (a >> 1) ^ n ^ (low << 19) ^ (low << 17) ^ (low >> 2)
  }

  lemma ProductsOfShifts(low: bv32)
    ensures ShiftColumns(low)
         == Products((low << 24) ^ (low << 16) ^ (low << 8), (low << 23) ^ (low << 14) ^ (low << 2),
                     (low << 20) ^ (low << 12), low)
  {
  }

  lemma ProductsAreShifts(low: bv8)
    ensures Products((low as bv32) * 0x101_0100, (low as bv32) * 0x80_4004, (low as bv32) * 0x10_1000, low as bv32)
         == ShiftColumns(low as bv32)
  {
    hide Products, ShiftColumns;
    CarryFree(low);
    ProductsOfShifts(low as bv32);
  }

  lemma ChainToProducts(top: bv32, m: bv32, a: bv32, n: bv32, low: bv32)
    ensures TablelessChain(top, m, a, n, low) == Xor(top, Products(m, a, n, low))
  {
    calc {
      Xor(top, Products(m, a, n, low));
      Xor(top, m ^ a ^ (a >> 1) ^ n ^ (low << 19) ^ (low << 17) ^ (low >> 2));
      top ^ (m ^ a ^ (a >> 1) ^ n ^ (low << 19) ^ (low << 17) ^ (low >> 2));
      top ^ m ^ a ^ (a >> 1) ^ n ^ (low << 19) ^ (low << 17) ^ (low >> 2);
      TablelessChain(top, m, a, n, low);
    }
  }

  lemma MixToColumns(top: bv32, low: bv8)
    ensures TablelessMix(top, low as bv32) == Xor(top, ShiftColumns(low as bv32))
  {
    hide Xor, TablelessChain, Products, ShiftColumns;
    ChainToProducts(top, (low as bv32) * 0x101_0100, (low as bv32) * 0x80_4004, (low as bv32) * 0x10_1000, low as bv32);
    ProductsAreShifts(low);
  }

  lemma TablelessStepIsByteStep(crc: bv32, b: bv8)
    ensures TablelessStep(crc, b) == ByteStep(crc, b)
  {
    hide Xor, TablelessMix, ShiftColumns, Folded, ByteStep;
    MixToColumns(crc >> 8, Folded(((crc & 0xFF) as bv8) ^ b));
    ShiftColumnsAreByteColumns(((crc & 0xFF) as bv8) ^ b);
    ByteStepByColumns(crc, b, ((crc & 0xFF) as bv8) ^ b);
  }

  lemma ByteStepByColumns(crc: bv32, b: bv8, s: bv8)
    requires s == ((crc & 0xFF) as bv8) ^ b
    ensures ByteStep(crc, b) == Xor(crc >> 8, ByteColumns(s))
  {
    hide Xor, Zeros, LowByte, DropByte, ByteColumns;
    IndexOfMixed(crc, b);
    ByteByLookup(Xor(crc, b as bv32));
    ZerosOfByte(s);
    LookupZero(s);
  }

  /** A signed 32-bit word shifted right by 31: every bit becomes the sign bit. */
  function SignSpread(x: bv32): bv32 {
    if x & 0x8000_0000 == 0x8000_0000 then ONES else 0
  }

  /** The eight sign masks of `crc32_1byte_tableless2`. */
  function SignColumns(x: bv32): bv32 {
    XorAll([
      SignSpread(x << 31) & ((POLYNOMIAL >> 7) ^ (POLYNOMIAL >> 1)),
      SignSpread(x << 30) & ((POLYNOMIAL >> 6) ^ POLYNOMIAL),
      SignSpread(x << 29) & (POLYNOMIAL >> 5),
      SignSpread(x << 28) & (POLYNOMIAL >> 4)] + [
      SignSpread(x << 27) & (POLYNOMIAL >> 3),
      SignSpread(x << 26) & (POLYNOMIAL >> 2),
      SignSpread(x << 25) & (POLYNOMIAL >> 1),
      SignSpread(x << 24) & POLYNOMIAL])
  }

  function SignStep(x: bv32): bv32 {
    (x >> 8) ^ SignColumns(x)
  }

  /** The body of `crc32_1byte_tableless2`. */
  function TablelessStep2(crc: bv32, b: bv8): bv32 {
    SignStep(crc ^ (b as bv32))
  }

  lemma SignMasks(x: bv32)
    ensures SignSpread(x << 31) & ((POLYNOMIAL >> 7) ^ (POLYNOMIAL >> 1)) == Column(Bit(LowByte(x), 1), 0x77073096)
    ensures SignSpread(x << 30) & ((POLYNOMIAL >> 6) ^ POLYNOMIAL) == Column(Bit(LowByte(x), 2), 0xEE0E612C)
    ensures SignSpread(x << 29) & (POLYNOMIAL >> 5) == Column(Bit(LowByte(x), 4), 0x076DC419)
    ensures SignSpread(x << 28) & (POLYNOMIAL >> 4) == Column(Bit(LowByte(x), 8), 0x0EDB8832)
    ensures SignSpread(x << 27) & (POLYNOMIAL >> 3) == Column(Bit(LowByte(x), 0x10), 0x1DB71064)
    ensures SignSpread(x << 26) & (POLYNOMIAL >> 2) == Column(Bit(LowByte(x), 0x20), 0x3B6E20C8)
    ensures SignSpread(x << 25) & (POLYNOMIAL >> 1) == Column(Bit(LowByte(x), 0x40), 0x76DC4190)
    ensures SignSpread(x << 24) & POLYNOMIAL == Column(Bit(LowByte(x), 0x80), 0xEDB88320)
  {
  }

  lemma SignColumnsAreByteColumns(x: bv32)
    ensures SignColumns(x) == ByteColumns(LowByte(x))
  {
    hide Xor, Xor4, XorAll, SignSpread, Column, Bit, LowByte;
    SignMasks(x);
    var s := LowByte(x);
    var low := [Column(Bit(s, 1), 0x77073096), Column(Bit(s, 2), 0xEE0E612C),
                Column(Bit(s, 4), 0x076DC419), Column(Bit(s, 8), 0x0EDB8832)];
    var high := [Column(Bit(s, 0x10), 0x1DB71064), Column(Bit(s, 0x20), 0x3B6E20C8),
                 Column(Bit(s, 0x40), 0x76DC4190), Column(Bit(s, 0x80), 0xEDB88320)];
    assert SignColumns(x) == XorAll(low + high);
    XorAllAppend(low, high);
    XorAllOf4(low[0], low[1], low[2], low[3]);
    XorAllOf4(high[0], high[1], high[2], high[3]);
    Xor4Reversed(low[0], low[1], low[2], low[3]);
    Xor4Reversed(high[0], high[1], high[2], high[3]);
    XorCommutes(Xor4(low[0], low[1], low[2], low[3]), Xor4(high[0], high[1], high[2], high[3]));
  }

  lemma DropByteIsShift(x: bv32)
    ensures DropByte(x) as bv32 == x >> 8
  {
  }

  lemma SignStepIsXor(x: bv32)
    ensures SignStep(x) == Xor(x >> 8, SignColumns(x))
  {
    hide SignColumns;
  }

  lemma SignStepIsZeros(x: bv32)
    ensures SignStep(x) == Zeros(8, x)
  {
    hide *;
    SignStepIsXor(x);
    DropByteIsShift(x);
    SignColumnsAreByteColumns(x);
    ByteByLookup(x);
    LookupZero(LowByte(x));
    ZerosOfByte(LowByte(x));
  }

  lemma TablelessStep2IsByteStep(crc: bv32, b: bv8)
    ensures TablelessStep2(crc, b) == ByteStep(crc, b)
  {
    hide Zeros, SignStep;
    SignStepIsZeros(Xor(crc, b as bv32));
  }
}
