/** The checksum routines of kismet/crc32.cc. Each walks the buffer with its own block size and its own
    arithmetic; all of them return `Crc(previousCrc32, data)`. */
module Crc32 {
  import opened Gf2Words
  import opened Crc32Register
  import opened Crc32Tables
  import opened Crc32Slicing
  import opened Crc32Bytewise

  lemma ExtendByByte(crc: bv32, data: seq<bv8>, current: nat)
    requires current < |data|
    ensures ByteStep(Run(crc, data[..current]), data[current]) == Run(crc, data[..current + 1])
  {
    hide ByteStep;
    assert data[..current + 1][..current] == data[..current];
  }

  lemma ExtendByBlock(crc: bv32, data: seq<bv8>, current: nat, block: nat)
    requires current + block <= |data|
    ensures Run(Run(crc, data[..current]), data[current..current + block]) == Run(crc, data[..current + block])
  {
    hide Run;
    RunAppend(crc, data[..current], data[current..current + block]);
    assert data[..current] + data[current..current + block] == data[..current + block];
  }

  lemma Finish(previousCrc32: bv32, data: seq<bv8>, read: seq<bv8>, crc: bv32)
    requires read == data && crc == Run(!previousCrc32, read)
    ensures !crc == Crc(previousCrc32, data)
  {
    hide Run;
  }

  lemma WordInBlock(data: seq<bv8>, current: nat, block: nat, i: nat)
    requires current + block <= |data| && i + 4 <= block
    ensures WordAt(data[current..current + block], i) == WordAt(data, current + i)
  {
  }

  /** The body of `crc32_bitwise`: mix in one byte, then eight bit steps. */
  method MixByte(register: bv32, b: bv8) returns (crc: bv32)
    ensures crc == ByteStep(register, b)
  {
    hide *;
    crc := register ^ (b as bv32);
    ghost var mixed := crc;
    ZerosNone(mixed);
    for j := 0 to 8
      invariant crc == Zeros(j, mixed)
    {
      BranchFreeIsStep(crc);
      ZerosNext(j, mixed);
      crc := BranchFreeStep(crc);
    }
    XorIs(register, b as bv32);
    ByteStepIs(register, b);
  }

  method Bitwise(data: seq<bv8>, previousCrc32: bv32) returns (r: bv32)
    ensures r == Crc(previousCrc32, data)
  {
    hide Crc, Run, ByteStep;
    var crc := !previousCrc32;
    var length, current := |data|, 0;
    RunNone(crc);
    while length != 0
      invariant 0 <= current && 0 <= length && current + length == |data|
      invariant crc == Run(!previousCrc32, data[..current])
    {
      length := length - 1;
      ExtendByByte(!previousCrc32, data, current);
      crc := MixByte(crc, data[current]);
      current := current + 1;
    }
    Finish(previousCrc32, data, data[..current], crc);
    return !crc;
  }

  method OneByte(data: seq<bv8>, previousCrc32: bv32) returns (r: bv32)
    ensures r == Crc(previousCrc32, data)
  {
    r := Tail(data, 0, !previousCrc32, !previousCrc32);
    r := !r;
  }

  /** The byte loop that ends every table variant, from byte `start` on. */
  method Tail(data: seq<bv8>, start: nat, register: bv32, ghost initial: bv32) returns (crc: bv32)
    requires start <= |data|
    requires register == Run(initial, data[..start])
    ensures crc == Run(initial, data)
  {
    hide Run, ByteStep, TableStep;
    crc := register;
    var length, current := |data| - start, start;
    while length != 0
      invariant 0 <= current && 0 <= length && current + length == |data|
      invariant crc == Run(initial, data[..current])
    {
      length := length - 1;
      TableStepIsByteStep(crc, data[current]);
      ExtendByByte(initial, data, current);
      crc := TableStep(crc, data[current]);
      current := current + 1;
    }
    assert data[..current] == data;
  }

  method HalfByte(data: seq<bv8>, previousCrc32: bv32) returns (r: bv32)
    ensures r == Crc(previousCrc32, data)
  {
    hide Crc, Run, ByteStep, HalfByteStep;
    var crc := !previousCrc32;
    var length, current := |data|, 0;
    RunNone(crc);
    while length != 0
      invariant 0 <= current && 0 <= length && current + length == |data|
      invariant crc == Run(!previousCrc32, data[..current])
    {
      length := length - 1;
      HalfByteStepIsByteStep(crc, data[current]);
      ExtendByByte(!previousCrc32, data, current);
      crc := HalfByteStep(crc, data[current]);
      current := current + 1;
    }
    Finish(previousCrc32, data, data[..current], crc);
    return !crc;
  }

  method OneByteTableless(data: seq<bv8>, previousCrc32: bv32) returns (r: bv32)
    ensures r == Crc(previousCrc32, data)
  {
    hide Crc, Run, ByteStep, TablelessStep;
    var crc := !previousCrc32;
    var length, current := |data|, 0;
    RunNone(crc);
    while length != 0
      invariant 0 <= current && 0 <= length && current + length == |data|
      invariant crc == Run(!previousCrc32, data[..current])
    {
      length := length - 1;
      TablelessStepIsByteStep(crc, data[current]);
      ExtendByByte(!previousCrc32, data, current);
      crc := TablelessStep(crc, data[current]);
      current := current + 1;
    }
    Finish(previousCrc32, data, data[..current], crc);
    return !crc;
  }

  method OneByteTableless2(data: seq<bv8>, previousCrc32: bv32) returns (r: bv32)
    ensures r == Crc(previousCrc32, data)
  {
    hide Crc, Run, ByteStep, TablelessStep2;
    var crc := !previousCrc32;
    var length, current := |data|, 0;
    RunNone(crc);
    while length != 0
      invariant 0 <= current && 0 <= length && current + length == |data|
      invariant crc == Run(!previousCrc32, data[..current])
    {
      length := length - 1;
      TablelessStep2IsByteStep(crc, data[current]);
      ExtendByByte(!previousCrc32, data, current);
      crc := TablelessStep2(crc, data[current]);
      current := current + 1;
    }
    Finish(previousCrc32, data, data[..current], crc);
    return !crc;
  }

  method FourBytes(data: seq<bv8>, previousCrc32: bv32) returns (r: bv32)
    ensures r == Crc(previousCrc32, data)
  {
    hide Run, WordAt, BlockBy4, Xor;
    var crc := !previousCrc32;
    var length, current := |data|, 0;
    RunNone(crc);
    while length >= 4
      invariant 0 <= current && 0 <= length && current + length == |data|
      invariant crc == Run(!previousCrc32, data[..current])
    {
      var one := WordAt(data, current) ^ crc;
      XorIs(WordAt(data, current), crc);
      Mixed4(crc, data, current, one);
      ExtendByBlock(!previousCrc32, data, current, 4);
      crc := BlockBy4(one);
      current := current + 4;
      length := length - 4;
    }
    crc := Tail(data, current, crc, !previousCrc32);
    return !crc;
  }

  lemma Mixed4(crc: bv32, data: seq<bv8>, current: nat, one: bv32)
    requires current + 4 <= |data| && one == Xor(WordAt(data, current), crc)
    ensures BlockBy4(one) == Run(crc, data[current..current + 4])
  {
    hide *;
    WordInBlock(data, current, 4, 0);
    RunBlock4(crc, data[current..current + 4], one);
  }

  lemma Mixed8(crc: bv32, data: seq<bv8>, current: nat, one: bv32, two: bv32)
    requires current + 8 <= |data|
    requires one == Xor(WordAt(data, current), crc) && two == WordAt(data, current + 4)
    ensures BlockBy8(one, two) == Run(crc, data[current..current + 8])
  {
    hide *;
    WordInBlock(data, current, 8, 0);
    WordInBlock(data, current, 8, 4);
    RunBlock8(crc, data[current..current + 8], one, two);
  }

  lemma Mixed16(crc: bv32, data: seq<bv8>, current: nat, one: bv32, two: bv32, three: bv32, four: bv32)
    requires current + 16 <= |data|
    requires one == Xor(WordAt(data, current), crc) && two == WordAt(data, current + 4)
    requires three == WordAt(data, current + 8) && four == WordAt(data, current + 12)
    ensures BlockBy16(one, two, three, four) == Run(crc, data[current..current + 16])
  {
    hide *;
    WordInBlock(data, current, 16, 0);
    WordInBlock(data, current, 16, 4);
    WordInBlock(data, current, 16, 8);
    WordInBlock(data, current, 16, 12);
    RunBlock16(crc, data[current..current + 16], one, two, three, four);
  }

  method EightBytes(data: seq<bv8>, previousCrc32: bv32) returns (r: bv32)
    ensures r == Crc(previousCrc32, data)
  {
    hide Run, WordAt, BlockBy8, Xor;
    var crc := !previousCrc32;
    var length, current := |data|, 0;
    RunNone(crc);
    while length >= 8
      invariant 0 <= current && 0 <= length && current + length == |data|
      invariant crc == Run(!previousCrc32, data[..current])
    {
      var one := WordAt(data, current) ^ crc;
      XorIs(WordAt(data, current), crc);
      var two := WordAt(data, current + 4);
      Mixed8(crc, data, current, one, two);
      ExtendByBlock(!previousCrc32, data, current, 8);
      crc := BlockBy8(one, two);
      current := current + 8;
      length := length - 8;
    }
    crc := Tail(data, current, crc, !previousCrc32);
    return !crc;
  }

  const UNROLL := 4

  method FourByEightBytes(data: seq<bv8>, previousCrc32: bv32) returns (r: bv32)
    ensures r == Crc(previousCrc32, data)
  {
    hide Run, WordAt, BlockBy8, Xor;
    var crc := !previousCrc32;
    var length, current := |data|, 0;
    RunNone(crc);
    while length >= 8 * UNROLL
      invariant 0 <= current && 0 <= length && current + length == |data|
      invariant crc == Run(!previousCrc32, data[..current])
    {
      ghost var start := current;
      for unrolling := 0 to UNROLL
        invariant current == start + 8 * unrolling
        invariant crc == Run(!previousCrc32, data[..current])
      {
        var one := WordAt(data, current) ^ crc;
        XorIs(WordAt(data, current), crc);
        var two := WordAt(data, current + 4);
        Mixed8(crc, data, current, one, two);
        ExtendByBlock(!previousCrc32, data, current, 8);
        crc := BlockBy8(one, two);
        current := current + 8;
      }
      length := length - 8 * UNROLL;
    }
    crc := Tail(data, current, crc, !previousCrc32);
    return !crc;
  }

  method SixteenBytes(data: seq<bv8>, previousCrc32: bv32) returns (r: bv32)
    ensures r == Crc(previousCrc32, data)
  {
    hide Run, WordAt, BlockBy16, Xor;
    var crc := !previousCrc32;
    var length, current := |data|, 0;
    RunNone(crc);
    while length >= 16 * UNROLL
      invariant 0 <= current && 0 <= length && current + length == |data|
      invariant crc == Run(!previousCrc32, data[..current])
    {
      ghost var start := current;
      for unrolling := 0 to UNROLL
        invariant current == start + 16 * unrolling
        invariant crc == Run(!previousCrc32, data[..current])
      {
        var one := WordAt(data, current) ^ crc;
        XorIs(WordAt(data, current), crc);
        var two := WordAt(data, current + 4);
        var three := WordAt(data, current + 8);
        var four := WordAt(data, current + 12);
        Mixed16(crc, data, current, one, two, three, four);
        ExtendByBlock(!previousCrc32, data, current, 16);
        crc := BlockBy16(one, two, three, four);
        current := current + 16;
      }
      length := length - 16 * UNROLL;
    }
    crc := Tail(data, current, crc, !previousCrc32);
    return !crc;
  }
}
