/** The checksum of kismet/capture_framework.c: four bytes at a time in 32-bit arithmetic, against the
    byte-by-byte recurrence modulo 2^16 it stands for. */
module Checksum {
  import opened Common
  import Cycles

  const TWO_16: nat := 0x1_0000
  const TWO_32: nat := 0x1_0000_0000

  datatype Sums = Sums(s1: nat, s2: nat)

  /** s1 += b, s2 += s1, modulo 2^16 */
  function AddByte(s: Sums, b: Byte): Sums {
    var s1 := (s.s1 + b) % TWO_16;
    Sums(s1, (s.s2 + s1) % TWO_16)
  }

  function Fold(s: Sums, data: seq<Byte>): Sums
    decreases |data|
  {
    if data == [] then s else AddByte(Fold(s, data[..|data| - 1]), data[|data| - 1])
  }

  function Unpack(cs: nat): Sums {
    Sums(cs % TWO_16, cs / TWO_16 % TWO_16)
  }

  function Pack(s: Sums): nat {
    s.s1 % TWO_16 + s.s2 % TWO_16 * TWO_16
  }

  /** The checksum appended to cs; buffers shorter than four bytes are not summed. */
  function Csum(data: seq<Byte>, cs: nat): nat {
    if |data| < 4 then 0 else Pack(Fold(Unpack(cs), data))
  }

  // ----- the unrolled form -----

  /** The same recurrence without wrapping. */
  function AddWide(s: Sums, b: Byte): Sums {
    Sums(s.s1 + b, s.s2 + s.s1 + b)
  }

  function Wide(s: Sums, data: seq<Byte>): Sums
    decreases |data|
  {
    if data == [] then s else AddWide(Wide(s, data[..|data| - 1]), data[|data| - 1])
  }

  lemma {:induction false} WideWraps(s: Sums, data: seq<Byte>)
    requires s.s1 < TWO_16 && s.s2 < TWO_16
    ensures Fold(s, data) == Wrapped(Wide(s, data))
    decreases |data|
  {
    hide AddByte, AddWide, Wrapped;
    if data == [] {
      Small(s);
    } else {
      var n := |data| - 1;
      WideWraps(s, data[..n]);
      WrapByte(Wide(s, data[..n]), data[n]);
    }
  }

  function Wrapped(s: Sums): Sums {
    Sums(s.s1 % TWO_16, s.s2 % TWO_16)
  }

  lemma Small(s: Sums)
    requires s.s1 < TWO_16 && s.s2 < TWO_16
    ensures Wrapped(s) == s
  {
  }

  lemma WrapByte(s: Sums, b: Byte)
    ensures AddByte(Wrapped(s), b) == Wrapped(AddWide(s, b))
  {
    Absorb2(s.s1, s.s2, b, TWO_16);
  }

  lemma Absorb2(x: nat, y: nat, b: nat, n: nat)
    requires n > 0
    ensures (x % n + b) % n == (x + b) % n
    ensures (y % n + (x + b) % n) % n == (y + x + b) % n
  {
    Cycles.Absorb(x, b, n);
    AbsorbBoth(y, x + b, n);
  }

  lemma AbsorbBoth(y: nat, z: nat, n: nat)
    requires n > 0
    ensures (y % n + z % n) % n == (y + z) % n
  {
    Cycles.Absorb(y, z % n, n);
    Cycles.Absorb(z, y, n);
  }

  lemma WideNext(s: Sums, data: seq<Byte>, i: nat)
    requires i < |data|
    ensures Wide(s, data[..i + 1]) == AddWide(Wide(s, data[..i]), data[i])
  {
    assert data[..i + 1][..i] == data[..i];
  }

  lemma WideFour(s: Sums, data: seq<Byte>, i: nat)
    requires i + 4 <= |data|
    ensures var w := Wide(s, data[..i]);
      Wide(s, data[..i + 4]) == Sums(
        w.s1 + (data[i + 3] as int + data[i + 2] as int + data[i + 1] as int + data[i] as int),
        w.s2 + (4 * (w.s1 + data[i]) + 3 * data[i + 1] as int + 2 * data[i + 2] as int + data[i + 3] as int))
  {
    hide Wide;
    WideNext(s, data, i);
    WideNext(s, data, i + 1);
    WideNext(s, data, i + 2);
    WideNext(s, data, i + 3);
  }

  /** A 32-bit sum only matters modulo 2^32. */
  lemma Wrap32(x: nat, y: nat, k: nat)
    ensures (x + k * (y % TWO_32)) % TWO_32 == (x + k * y) % TWO_32
  {
    var q, r := Cycles.DivMod(y, TWO_32);
    Cycles.ModIs(y, TWO_32, q, r);
    assert x + k * y == (x + k * r) + (k * q) * TWO_32;
    DropMultiple(x + k * r, k * q);
  }

  lemma DropMultiple(x: nat, k: nat)
    ensures (x + k * TWO_32) % TWO_32 == x % TWO_32
  {
  }

  /** `(4 * (ls1 + b0)) + 3 * b1 + 2 * b2 + b3`, modulo 2^32 throughout. */
  lemma BlockWraps(w1: nat, w2: nat, b0: nat, rest: nat)
    ensures (w2 % TWO_32 + 4 * (w1 % TWO_32 + b0) + rest) % TWO_32 == (w2 + (4 * (w1 + b0) + rest)) % TWO_32
  {
    var y := 4 * b0 + rest;
    Wrap32(w2 % TWO_32 + y, w1, 4);
    Cycles.Absorb(w2, y + 4 * w1, TWO_32);
    assert w2 % TWO_32 + 4 * (w1 % TWO_32 + b0) + rest == w2 % TWO_32 + y + 4 * (w1 % TWO_32);
    assert w2 + (4 * (w1 + b0) + rest) == w2 + (y + 4 * w1);
  }

  /** Add a byte to the running sums, modulo 2^32. */
  lemma TailWraps(w1: nat, w2: nat, b: nat)
    ensures (w1 % TWO_32 + b) % TWO_32 == (w1 + b) % TWO_32
    ensures (w2 % TWO_32 + (w1 + b) % TWO_32) % TWO_32 == (w2 + w1 + b) % TWO_32
  {
    Absorb2(w1, w2, b, TWO_32);
  }

  lemma LowHalf(x: nat)
    ensures (x % TWO_32) % TWO_16 == x % TWO_16
  {
    var q := x / TWO_32;
    assert x == q * TWO_32 + x % TWO_32;
    DropMultiple16(x % TWO_32, q * TWO_16);
  }

  lemma DropMultiple16(x: nat, k: nat)
    ensures (x + k * TWO_16) % TWO_16 == x % TWO_16
  {
  }

  /** `ls2 << 16` in 32 bits keeps the low half of ls2. */
  lemma ShiftedHalf(x: nat)
    ensures x * TWO_16 % TWO_32 == x % TWO_16 * TWO_16
  {
  }

  /** `ls1 += b; ls2 += ls1` for the byte at i. */
  method AddTailByte(data: seq<Byte>, i: nat, ls1: nat, ls2: nat, ghost s: Sums) returns (r1: nat, r2: nat)
    requires i < |data|
    requires ls1 == Wide(s, data[..i]).s1 % TWO_32 && ls2 == Wide(s, data[..i]).s2 % TWO_32
    ensures r1 == Wide(s, data[..i + 1]).s1 % TWO_32 && r2 == Wide(s, data[..i + 1]).s2 % TWO_32
  {
    hide Wide;
    var w := Wide(s, data[..i]);
    TailWraps(w.s1, w.s2, data[i]);
    WideNext(s, data, i);
    r1 := (ls1 + data[i]) % TWO_32;
    r2 := (ls2 + r1) % TWO_32;
  }

  /** The switch over the last one to four bytes. */
  method AddTail(data: seq<Byte>, start: nat, ls1: nat, ls2: nat, ghost s: Sums) returns (r1: nat, r2: nat)
    requires start < |data| <= start + 4
    requires ls1 == Wide(s, data[..start]).s1 % TWO_32 && ls2 == Wide(s, data[..start]).s2 % TWO_32
    ensures r1 == Wide(s, data).s1 % TWO_32 && r2 == Wide(s, data).s2 % TWO_32
  {
    hide Wide;
    assert data[..|data|] == data;
    r1, r2 := AddTailByte(data, start, ls1, ls2, s);
    if |data| - start >= 2 {
      r1, r2 := AddTailByte(data, start + 1, r1, r2, s);
    }
    if |data| - start >= 3 {
      r1, r2 := AddTailByte(data, start + 2, r1, r2, s);
    }
    if |data| - start >= 4 {
      r1, r2 := AddTailByte(data, start + 3, r1, r2, s);
    }
  }

  /** Four bytes at once. */
  method AddBlock(data: seq<Byte>, i: nat, ls1: nat, ls2: nat, ghost s: Sums) returns (r1: nat, r2: nat)
    requires i + 4 <= |data|
    requires ls1 == Wide(s, data[..i]).s1 % TWO_32 && ls2 == Wide(s, data[..i]).s2 % TWO_32
    ensures r1 == Wide(s, data[..i + 4]).s1 % TWO_32 && r2 == Wide(s, data[..i + 4]).s2 % TWO_32
  {
    hide Wide;
    var b0: nat, b1: nat, b2: nat, b3: nat := data[i], data[i + 1], data[i + 2], data[i + 3];
    ghost var w := Wide(s, data[..i]);
    WideFour(s, data, i);
    BlockWraps(w.s1, w.s2, b0, 3 * b1 + 2 * b2 + b3);
    Cycles.Absorb(w.s1, b3 + b2 + b1 + b0, TWO_32);
    r2 := (ls2 + 4 * (ls1 + b0) + (3 * b1 + 2 * b2 + b3)) % TWO_32;
    r1 := (ls1 + (b3 + b2 + b1 + b0)) % TWO_32;
  }

  /** The two sums, put together in one word. */
  lemma Packs(s: Sums, data: seq<Byte>, ls1: nat, ls2: nat)
    requires s.s1 < TWO_16 && s.s2 < TWO_16
    requires ls1 == Wide(s, data).s1 % TWO_32 && ls2 == Wide(s, data).s2 % TWO_32
    ensures ls1 % TWO_16 + ls2 * TWO_16 % TWO_32 == Pack(Fold(s, data))
  {
    hide Wide, Fold;
    WideWraps(s, data);
    LowHalf(Wide(s, data).s1);
    LowHalf(Wide(s, data).s2);
    ShiftedHalf(ls2);
  }

  /** `adler32_append_csum` */
  method AppendCsum(data: seq<Byte>, cs: nat) returns (r: nat)
    requires cs < TWO_32
    ensures r == Csum(data, cs)
  {
    hide Wide, Fold, Pack;
    var ls1, ls2 := cs % TWO_16, cs / TWO_16 % TWO_16;
    if |data| < 4 {
      return 0;
    }
    ghost var s := Sums(ls1, ls2);
    WideNone(s, data);
    var i := 0;
    while i < |data| - 4
      invariant 0 <= i < |data|
      invariant ls1 == Wide(s, data[..i]).s1 % TWO_32 && ls2 == Wide(s, data[..i]).s2 % TWO_32
    {
      ls1, ls2 := AddBlock(data, i, ls1, ls2, s);
      i := i + 4;
    }
    ls1, ls2 := AddTail(data, i, ls1, ls2, s);
    Packs(s, data, ls1, ls2);
    r := ls1 % TWO_16 + ls2 * TWO_16 % TWO_32;
  }

  lemma WideNone(s: Sums, data: seq<Byte>)
    ensures Wide(s, data[..0]) == s
  {
  }

  // ----- the sums, written out -----

  function Total(data: seq<Byte>): nat {
    if data == [] then 0 else data[0] as nat + Total(data[1..])
  }

  /** The first byte counts |data| times, the last one once. */
  function Weighted(data: seq<Byte>): nat {
    if data == [] then 0 else |data| * (data[0] as nat) + Weighted(data[1..])
  }

  lemma {:induction false} SumsNext(data: seq<Byte>, b: Byte)
    ensures Total(data + [b]) == Total(data) + b as nat
    ensures Weighted(data + [b]) == Weighted(data) + Total(data) + b as nat
  {
    if data == [] {
      assert [] + [b] == [b] && [b][1..] == [];
    } else {
      assert (data + [b])[1..] == data[1..] + [b];
      SumsNext(data[1..], b);
      OneMore(|data|, data[0] as nat);
    }
  }

  lemma OneMore(n: nat, x: nat)
    ensures (n + 1) * x == n * x + x
  {
  }

  lemma {:induction false} WideIs(s: Sums, data: seq<Byte>)
    ensures Wide(s, data) == Sums(s.s1 + Total(data), s.s2 + |data| * s.s1 + Weighted(data))
    decreases |data|
  {
    if data != [] {
      var n := |data| - 1;
      WideIs(s, data[..n]);
      SumsNext(data[..n], data[n]);
      assert data == data[..n] + [data[n]];
      OneMore(n, s.s1);
    }
  }

  lemma Halves(s: Sums)
    ensures Pack(s) % 65536 == s.s1 % 65536 && Pack(s) / 65536 == s.s2 % 65536
  {
  }

  /** The low half of the checksum counts every byte once, the high half counts each as often as there are bytes
      from it on; buffers shorter than four bytes give 0. */
  lemma CsumIs(data: seq<Byte>, cs: nat)
    requires cs < 0x1_0000_0000
    ensures |data| < 4 ==> Csum(data, cs) == 0
    ensures |data| >= 4 ==>
      && Csum(data, cs) % 65536 == (cs % 65536 + Total(data)) % 65536
      && Csum(data, cs) / 65536 == (cs / 65536 + |data| * (cs % 65536) + Weighted(data)) % 65536
  {
    hide Fold, Wide, Pack, Total, Weighted;
    if |data| >= 4 {
      var s := Unpack(cs);
      assert s == Sums(cs % 65536, cs / 65536);
      WideWraps(s, data);
      WideIs(s, data);
      Halves(Fold(s, data));
      ModTwice(Wide(s, data));
    }
  }

  lemma ModTwice(s: Sums)
    ensures Wrapped(s).s1 % 65536 == s.s1 % 65536 && Wrapped(s).s2 % 65536 == s.s2 % 65536
  {
  }

  // ----- appending -----

  lemma {:induction false} FoldAppend(s: Sums, a: seq<Byte>, b: seq<Byte>)
    ensures Fold(s, a + b) == Fold(Fold(s, a), b)
    decreases |b|
  {
    if b == [] {
      assert a + b == a;
    } else {
      var n := |b| - 1;
      assert (a + b)[..|a + b| - 1] == a + b[..n];
      FoldAppend(s, a, b[..n]);
    }
  }

  lemma {:induction false} FoldSmall(s: Sums, data: seq<Byte>)
    requires s.s1 < TWO_16 && s.s2 < TWO_16
    ensures Fold(s, data).s1 < TWO_16 && Fold(s, data).s2 < TWO_16
    decreases |data|
  {
    if data != [] {
      FoldSmall(s, data[..|data| - 1]);
    }
  }

  lemma PackUnpack(s: Sums)
    requires s.s1 < TWO_16 && s.s2 < TWO_16
    ensures Unpack(Pack(s)) == s
  {
  }

  /** The checksum of a, then of b on top of it, is the checksum of both at once. */
  ghost predicate Appends(a: seq<Byte>, b: seq<Byte>, cs: nat) {
    Csum(a + b, cs) == Csum(b, Csum(a, cs))
  }

  lemma LongAppends(a: seq<Byte>, b: seq<Byte>, cs: nat)
    requires |a| >= 4 && |b| >= 4
    ensures Appends(a, b, cs)
  {
    hide Fold;
    FoldAppend(Unpack(cs), a, b);
    FoldSmall(Unpack(cs), a);
    PackUnpack(Fold(Unpack(cs), a));
  }

  function Zeroes(n: nat): (z: seq<Byte>)
    ensures |z| == n
  {
    seq(n, _ => 0)
  }

  lemma {:induction false} FoldZeroes(s: Sums, n: nat)
    requires s.s1 < TWO_16 && s.s2 < TWO_16
    ensures Fold(s, Zeroes(n)).s1 == s.s1
    ensures s == Sums(0, 0) ==> Fold(s, Zeroes(n)) == s
  {
    if n != 0 {
      assert Zeroes(n)[..n - 1] == Zeroes(n - 1);
      FoldZeroes(s, n - 1);
    }
  }

  lemma CsumOfZeroes(n: nat)
    requires n >= 4
    ensures Csum(Zeroes(n), 0) == 0 && Csum(Zeroes(n), 1) % TWO_16 == 1
  {
    FoldZeroes(Sums(0, 0), n);
    FoldZeroes(Sums(1, 0), n);
    assert Unpack(0) == Sums(0, 0) && Unpack(1) == Sums(1, 0);
  }

  /** Appending is compositional for all buffers of lengths m and n exactly when both are long enough to be
      summed, or their concatenation is not either. */
  lemma AppendsExactly(m: nat, n: nat)
    ensures (forall a, b, cs :: |a| == m && |b| == n ==> Appends(a, b, cs)) <==> (m >= 4 && n >= 4) || m + n < 4
  {
    hide Csum;
    if m >= 4 && n >= 4 {
      forall a, b, cs | |a| == m && |b| == n
        ensures Appends(a, b, cs)
      {
        LongAppends(a, b, cs);
      }
    } else if m + n < 4 {
      forall a, b, cs | |a| == m && |b| == n
        ensures Appends(a, b, cs)
      {
        ShortIsZero(a + b, cs);
        ShortIsZero(b, Csum(a, cs));
      }
    } else {
      var a, b := Zeroes(m), Zeroes(n);
      assert a + b == Zeroes(m + n);
      CsumOfZeroes(m + n);
      if n < 4 {
        ShortIsZero(b, Csum(a, 1));
      } else {
        ShortIsZero(a, 1);
        CsumOfZeroes(n);
      }
      assert !Appends(a, b, 1);
    }
  }

  lemma ShortIsZero(data: seq<Byte>, cs: nat)
    requires |data| < 4
    ensures Csum(data, cs) == 0
  {
  }
}
