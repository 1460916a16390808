/** The block expressions of the slicing variants in kismet/crc32.cc (little-endian branch), and that
    each is the register after its block. */
module Crc32Slicing {
  import opened Gf2Words
  import opened Crc32Register
  import opened Crc32Tables

  /** `(w >> 8 * i) & 0xFF` */
  function Byte0(w: bv32): bv8 { (w & 0xFF) as bv8 }
  function Byte1(w: bv32): bv8 { ((w >> 8) & 0xFF) as bv8 }
  function Byte2(w: bv32): bv8 { ((w >> 16) & 0xFF) as bv8 }
  function Byte3(w: bv32): bv8 { ((w >> 24) & 0xFF) as bv8 }

  /** The four table entries the source takes for one word, first of them in table `slice`. */
  function Lookups(slice: nat, w: bv32): seq<bv32> {
    [Lookup(slice, Byte3(w)), Lookup(slice + 1, Byte2(w)), Lookup(slice + 2, Byte1(w)), Lookup(slice + 3, Byte0(w))]
  }

  function BlockBy4(one: bv32): bv32 {
    XorAll(Lookups(0, one))
  }

  function BlockBy8(one: bv32, two: bv32): bv32 {
    XorAll(Lookups(0, two) + Lookups(4, one))
  }

  function BlockBy16(one: bv32, two: bv32, three: bv32, four: bv32): bv32 {
    XorAll(Lookups(0, four) + Lookups(4, three) + Lookups(8, two) + Lookups(12, one))
  }

  /** A little-endian 32-bit read at byte i. */
  function WordAt(data: seq<bv8>, i: nat): bv32
    requires i + 4 <= |data|
  {
    Word(data[i], data[i + 1], data[i + 2], data[i + 3])
  }

  /** The four lookups for word w, `slice` tables up. */
  function WordSlice(slice: nat, w: bv32): bv32 {
    Slice(slice, Byte0(w), Byte1(w), Byte2(w), Byte3(w))
  }

  lemma BytesOfWord(w: bv32)
    ensures Word(Byte0(w), Byte1(w), Byte2(w), Byte3(w)) == w
  {
  }

  lemma WordSliceIsZeroBytes(slice: nat, w: bv32)
    ensures WordSlice(slice, w) == ZeroBytes(slice + 4, w)
  {
    hide Slice, ZeroBytes, Word, Byte0, Byte1, Byte2, Byte3;
    BytesOfWord(w);
    SliceIsZeroBytes(slice, Byte0(w), Byte1(w), Byte2(w), Byte3(w));
  }

  /** The next word of a block, mixed with the register, costs four lookups; the rest starts from zero. */
  lemma WordThenRest(crc: bv32, data: seq<bv8>)
    requires |data| >= 4
    ensures Run(crc, data) == Xor(WordSlice(|data| - 4, Xor(WordAt(data, 0), crc)), Run(0, data[4..]))
  {
    hide Xor, Zeros, Run, Word, WordSlice;
    var rest := data[4..];
    var one := Xor(WordAt(data, 0), crc);
    assert data == [data[0], data[1], data[2], data[3]] + rest;
    RunAppend(crc, data[..4], rest);
    assert data[..4] == [data[0], data[1], data[2], data[3]] && data == data[..4] + rest;
    RunWord(crc, data[0], data[1], data[2], data[3]);
    RunSplit(Run(crc, data[..4]), rest);
    assert Zeros(8 * |rest|, Run(crc, data[..4])) == ZeroBytes(|rest|, ZeroBytes(4, one));
    ZeroBytesAdd(4, |rest|, one);
    WordSliceIsZeroBytes(|rest|, one);
  }

  // ----- the exclusive-or chains -----

  lemma LookupsAreSlice(slice: nat, w: bv32)
    ensures XorAll(Lookups(slice, w)) == WordSlice(slice, w)
  {
    hide Lookup, Byte0, Byte1, Byte2, Byte3, Xor4, XorAll;
    XorAllOf4(Lookup(slice, Byte3(w)), Lookup(slice + 1, Byte2(w)), Lookup(slice + 2, Byte1(w)), Lookup(slice + 3, Byte0(w)));
  }

  lemma Block4Slice(one: bv32)
    ensures BlockBy4(one) == WordSlice(0, one)
  {
    hide Lookups, WordSlice, XorAll;
    LookupsAreSlice(0, one);
  }

  lemma Block8Slices(one: bv32, two: bv32)
    ensures BlockBy8(one, two) == Xor(WordSlice(0, two), WordSlice(4, one))
  {
    hide Lookups, WordSlice, Xor, XorAll;
    LookupsAreSlice(0, two);
    LookupsAreSlice(4, one);
    XorAllAppend(Lookups(0, two), Lookups(4, one));
  }

  lemma Block16Slices(one: bv32, two: bv32, three: bv32, four: bv32)
    ensures BlockBy16(one, two, three, four)
         == Xor(Xor(BlockBy8(three, four), WordSlice(8, two)), WordSlice(12, one))
  {
    hide Lookups, WordSlice, Xor, XorAll;
    LookupsAreSlice(8, two);
    LookupsAreSlice(12, one);
    var eight := Lookups(0, four) + Lookups(4, three);
    XorAllAppend(eight, Lookups(8, two));
    XorAllAppend(eight + Lookups(8, two), Lookups(12, one));
  }

  /** One step of slicing-by-4 is four bytes of input. */
  lemma RunBlock4(crc: bv32, data: seq<bv8>, one: bv32)
    requires |data| == 4
    requires one == Xor(WordAt(data, 0), crc)
    ensures BlockBy4(one) == Run(crc, data)
  {
    hide *;
    assert data[4..] == [];
    RunNone(0);
    WordThenRest(crc, data);
    XorZero(WordSlice(0, one));
    Block4Slice(one);
  }

  /** One step of slicing-by-8 is eight bytes of input. */
  lemma RunBlock8(crc: bv32, data: seq<bv8>, one: bv32, two: bv32)
    requires |data| == 8
    requires one == Xor(WordAt(data, 0), crc) && two == WordAt(data, 4)
    ensures BlockBy8(one, two) == Run(crc, data)
  {
    hide *;
    WordThenRest(crc, data);
    XorZero(two);
    assert two == WordAt(data[4..], 0) by { WordShifted(data, 4); }
    RunBlock4(0, data[4..], two);
    Block4Slice(two);
    Block8Slices(one, two);
    XorCommutes(WordSlice(4, one), WordSlice(0, two));
  }

  /** One step of slicing-by-16 is sixteen bytes of input. */
  lemma RunBlock16(crc: bv32, data: seq<bv8>, one: bv32, two: bv32, three: bv32, four: bv32)
    requires |data| == 16
    requires one == Xor(WordAt(data, 0), crc) && two == WordAt(data, 4)
    requires three == WordAt(data, 8) && four == WordAt(data, 12)
    ensures BlockBy16(one, two, three, four) == Run(crc, data)
  {
    hide *;
    WordThenRest(crc, data);
    XorZero(two);
    XorZero(three);
    WordShifted(data, 4);
    WordThenRest(0, data[4..]);
    assert data[4..][4..] == data[8..];
    WordShifted(data, 8);
    assert WordAt(data[8..], 4) == four by { WordShifted(data, 12); WordShifted(data[8..], 4); assert data[8..][4..] == data[12..]; }
    RunBlock8(0, data[8..], three, four);
    Block16Slices(one, two, three, four);
    var s0 := BlockBy8(three, four);
    XorCommutes(WordSlice(8, two), s0);
    XorCommutes(WordSlice(12, one), Xor(s0, WordSlice(8, two)));
  }

  lemma WordShifted(data: seq<bv8>, i: nat)
    requires i + 4 <= |data|
    ensures WordAt(data[i..], 0) == WordAt(data, i)
  {
  }
}
