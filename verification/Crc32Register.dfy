/** The shift register of CRC-32 (kismet/crc32.cc): the one-bit step, its linearity over GF(2), and
    the checksum of a whole buffer that every variant in the file has to compute. */
module Crc32Register {
  import opened Gf2Words

  /** The reflected CRC-32 polynomial. */
  const POLYNOMIAL: bv32 := 0xEDB88320

  function Feedback(odd: bool): bv32 {
    if odd then POLYNOMIAL else 0
  }

  /** Clock one zero bit into the register. */
  function Step(crc: bv32): bv32 {
    Xor(Half(crc), Feedback(Odd(crc)))
  }

  /** Clock n zero bits into the register. */
  function Zeros(n: nat, crc: bv32): bv32 {
    if n == 0 then crc else Step(Zeros(n - 1, crc))
  }

  /** One byte of input. */
  function ByteStep(crc: bv32, b: bv8): bv32 {
    Zeros(8, Xor(crc, b as bv32))
  }

  /** The register after a whole buffer. */
  function Run(crc: bv32, data: seq<bv8>): bv32
    decreases |data|
  {
    if data == [] then crc else ByteStep(Run(crc, data[..|data| - 1]), data[|data| - 1])
  }

  /** The checksum: complement, run, complement. */
  function Crc(previous: bv32, data: seq<bv8>): bv32 {
    Not(Run(Not(previous), data))
  }

  lemma StepLinear(x: bv32, y: bv32)
    ensures Step(Xor(x, y)) == Xor(Step(x), Step(y))
  {
    hide Xor, Half, Odd;
    HalfLinear(x, y);
    OddLinear(x, y);
    var fx, fy := Feedback(Odd(x)), Feedback(Odd(y));
    XorZero(POLYNOMIAL);
    XorSelf(POLYNOMIAL);
    XorZero(0);
    XorExchange(Half(x), Half(y), fx, fy);
  }

  lemma {:induction false} ZerosLinear(n: nat, x: bv32, y: bv32)
    ensures Zeros(n, Xor(x, y)) == Xor(Zeros(n, x), Zeros(n, y))
  {
    hide Xor, Step;
    if n != 0 {
      ZerosLinear(n - 1, x, y);
      StepLinear(Zeros(n - 1, x), Zeros(n - 1, y));
    }
  }

  lemma {:induction false} ZerosAdd(m: nat, n: nat, x: bv32)
    ensures Zeros(m + n, x) == Zeros(n, Zeros(m, x))
  {
    hide Step;
    if n != 0 {
      ZerosAdd(m, n - 1, x);
    }
  }

  lemma {:induction false} ZerosOfZero(n: nat)
    ensures Zeros(n, 0) == 0
  {
    if n != 0 {
      ZerosOfZero(n - 1);
      assert Step(0) == 0;
    }
  }

  lemma {:induction false} RunAppend(crc: bv32, a: seq<bv8>, b: seq<bv8>)
    ensures Run(crc, a + b) == Run(Run(crc, a), b)
    decreases |b|
  {
    hide ByteStep;
    if b == [] {
      assert a + b == a;
    } else {
      var n := |b| - 1;
      assert (a + b)[..|a + b| - 1] == a + b[..n];
      RunAppend(crc, a, b[..n]);
    }
  }

  lemma ZerosNone(x: bv32)
    ensures Zeros(0, x) == x
  {
  }

  lemma ZerosNext(n: nat, x: bv32)
    ensures Zeros(n + 1, x) == Step(Zeros(n, x))
  {
  }

  lemma RunNone(crc: bv32)
    ensures Run(crc, []) == crc
  {
  }

  lemma ByteStepIs(crc: bv32, b: bv8)
    ensures ByteStep(crc, b) == Zeros(8, Xor(crc, b as bv32))
  {
    hide Zeros, Xor;
  }

  /** Superposition of one more byte. */
  lemma ByteStepSplit(n: nat, crc: bv32, r: bv32, b: bv8)
    ensures ByteStep(Xor(Zeros(8 * n, crc), r), b) == Xor(Zeros(8 * (n + 1), crc), ByteStep(r, b))
  {
    hide Xor, Zeros;
    XorAssociates(Zeros(8 * n, crc), r, b as bv32);
    ZerosLinear(8, Zeros(8 * n, crc), Xor(r, b as bv32));
    ZerosAdd(8 * n, 8, crc);
    assert 8 * n + 8 == 8 * (n + 1);
  }

  /** Superposition: the old register contributes as if zero bytes had followed it. */
  lemma {:induction false} RunSplit(crc: bv32, data: seq<bv8>)
    ensures Run(crc, data) == Xor(Zeros(8 * |data|, crc), Run(0, data))
    decreases |data|
  {
    hide Xor, Zeros, ByteStep;
    if data == [] {
      XorZero(crc);
      ZerosNone(crc);
    } else {
      var n := |data| - 1;
      RunSplit(crc, data[..n]);
      ByteStepSplit(n, crc, Run(0, data[..n]), data[n]);
    }
  }

  /** A checksum can be continued. */
  lemma CrcAppend(previous: bv32, a: seq<bv8>, b: seq<bv8>)
    ensures Crc(Crc(previous, a), b) == Crc(previous, a + b)
  {
    hide Run, Not;
    RunAppend(Not(previous), a, b);
    NotNot(Run(Not(previous), a));
  }
}
