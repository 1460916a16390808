/** The text that kismet/base64.cc writes, as a number: its characters are the digits, to the base 64, of the
    bytes taken as digits to the base 256 (section 4 of RFC 4648). */
module Base64Digits {
  import opened Common
  import opened Base64
  import Cycles

  /** The digit k of the base64 alphabet: capitals, small letters, decimal digits, plus and slash. */
  function Alphabet(k: nat): char
    requires k < 64
  {
    if k < 26 then Capital(k) else if k < 52 then Small(k - 26) else "0123456789+/"[k - 52]
  }

  lemma LastTwelve(k: nat)
    requires k < 12
    ensures "0123456789+/"[k] as int == if k < 10 then 48 + k else if k == 10 then 43 else 47
  {
  }

  lemma LetterIs(k: nat)
    requires k < 64
    ensures Letter(k) == Alphabet(k) as int
  {
    hide Small, Capital;
    if k < 26 {
      CapitalIs(k);
    } else if k < 52 {
      SmallIs(k - 26);
    } else {
      LastTwelve(k - 52);
    }
  }

  /** The characters that decoding accepts are those of the alphabet. */
  lemma AcceptedIs(c: Byte)
    ensures IsBase64(c) <==> exists k: nat :: k < 64 && Alphabet(k) as int == c
    ensures forall k: nat :: k < 64 && Alphabet(k) as int == c ==> Find(c) == k
  {
    hide Alphabet;
    forall k: nat | k < 64
      ensures Alphabet(k) as int == Letter(k)
      ensures IsBase64(Letter(k)) && Find(Letter(k)) == k
    {
      LetterIs(k);
      LetterFound(k);
    }
    if IsBase64(c) {
      assert Find(c) < 64 && Letter(Find(c)) == c;
    }
  }

  function Radix(base: nat, digits: seq<nat>): nat {
    if digits == [] then 0 else base * Radix(base, digits[..|digits| - 1]) + digits[|digits| - 1]
  }

  function Pow(base: nat, n: nat): nat {
    if n == 0 then 1 else base * Pow(base, n - 1)
  }

  lemma RadixNext(base: nat, digits: seq<nat>, d: nat)
    ensures Radix(base, digits + [d]) == base * Radix(base, digits) + d
  {
    assert (digits + [d])[..|digits|] == digits;
  }

  lemma {:induction false} RadixJoin(base: nat, a: seq<nat>, b: seq<nat>)
    ensures Radix(base, a + b) == Radix(base, a) * Pow(base, |b|) + Radix(base, b)
    decreases |b|
  {
    if b == [] {
      assert a + b == a;
    } else {
      var n := |b| - 1;
      RadixJoin(base, a, b[..n]);
      assert a + b == (a + b[..n]) + [b[n]];
      hide Radix, Pow;
      RadixNext(base, a + b[..n], b[n]);
      RadixNext(base, b[..n], b[n]);
      assert b == b[..n] + [b[n]];
      PowNext(base, n);
      Cycles.Reassociate(base, Radix(base, a), Pow(base, n));
      Cycles.Reassociate(Radix(base, a), base, Pow(base, n));
      Spread(base, Radix(base, a) * Pow(base, n), Radix(base, b[..n]));
    }
  }

  lemma PowNext(base: nat, n: nat)
    ensures Pow(base, n + 1) == base * Pow(base, n)
  {
  }

  lemma Spread(c: nat, x: nat, y: nat)
    ensures c * (x + y) == c * x + c * y
  {
  }

  // ----- the text as a number -----

  /** How far the last group of n bytes is shifted to fill its last character: by zeros. */
  function Scale(n: nat): nat {
    if n % 3 == 0 then 1 else if n % 3 == 1 then 16 else 4
  }

  ghost predicate Spells(ds: seq<nat>, text: seq<Byte>) {
    |ds| == |text| && forall i :: 0 <= i < |ds| ==> ds[i] < 64 && text[i] == Alphabet(ds[i]) as int
  }

  lemma RadixOne(base: nat, a: nat)
    ensures Radix(base, [a]) == a
  {
    RadixNext(base, [], a);
    assert [] + [a] == [a];
  }

  lemma RadixTwo(base: nat, a: nat, b: nat)
    ensures Radix(base, [a, b]) == base * a + b
  {
    hide Radix;
    RadixOne(base, a);
    RadixNext(base, [a], b);
    assert [a] + [b] == [a, b];
  }

  lemma RadixThree(base: nat, a: nat, b: nat, c: nat)
    ensures Radix(base, [a, b, c]) == base * (base * a + b) + c
  {
    hide Radix;
    RadixTwo(base, a, b);
    RadixNext(base, [a, b], c);
    assert [a, b] + [c] == [a, b, c];
  }

  lemma RadixFour(base: nat, a: nat, b: nat, c: nat, d: nat)
    ensures Radix(base, [a, b, c, d]) == base * (base * (base * a + b) + c) + d
  {
    hide Radix;
    RadixThree(base, a, b, c);
    RadixNext(base, [a, b, c], d);
    assert [a, b, c] + [d] == [a, b, c, d];
  }

  lemma OneByte(a: Byte) returns (ds: seq<nat>)
    ensures Spells(ds, Unpadded([a])) && Radix(64, ds) == Radix(256, [a]) * 16
  {
    hide Alphabet, Letter, Radix;
    ds := [a / 4, a % 4 * 16];
    LetterIs(a / 4);
    LetterIs(a % 4 * 16);
    RadixTwo(64, a / 4, a % 4 * 16);
    RadixOne(256, a);
  }

  lemma TwoBytes(a: Byte, b: Byte) returns (ds: seq<nat>)
    ensures Spells(ds, Unpadded([a, b])) && Radix(64, ds) == Radix(256, [a, b]) * 4
  {
    hide Alphabet, Letter, Radix;
    ds := [a / 4, a % 4 * 16 + b / 16, b % 16 * 4];
    LetterIs(a / 4);
    LetterIs(a % 4 * 16 + b / 16);
    LetterIs(b % 16 * 4);
    RadixThree(64, a / 4, a % 4 * 16 + b / 16, b % 16 * 4);
    RadixTwo(256, a, b);
  }

  lemma ThreeBytes(a: Byte, b: Byte, c: Byte) returns (ds: seq<nat>)
    ensures Spells(ds, EncodeGroup([a, b, c])) && Radix(64, ds) == Radix(256, [a, b, c])
  {
    hide Alphabet, Letter, Radix;
    ds := [a / 4, a % 4 * 16 + b / 16, b % 16 * 4 + c / 64, c % 64];
    LetterIs(a / 4);
    LetterIs(a % 4 * 16 + b / 16);
    LetterIs(b % 16 * 4 + c / 64);
    LetterIs(c % 64);
    RadixFour(64, a / 4, a % 4 * 16 + b / 16, b % 16 * 4 + c / 64, c % 64);
    RadixThree(256, a, b, c);
  }

  /** The characters for n bytes, without padding. */
  function Chars(n: nat): nat {
    if n == 0 then 0 else if n <= 3 then n + 1 else 4 + Chars(n - 3)
  }

  lemma {:induction false} CharsAre(x: seq<Byte>)
    ensures |Stripped(x)| == Chars(|x|)
    decreases |x|
  {
    hide EncodeGroup;
    if |x| > 3 {
      CharsAre(x[3..]);
    }
  }

  lemma FourMore(n: nat)
    ensures Pow(64, 4 + n) == 16777216 * Pow(64, n)
  {
    assert Pow(64, 4 + n) == 64 * Pow(64, 3 + n);
    assert Pow(64, 3 + n) == 64 * Pow(64, 2 + n);
    assert Pow(64, 2 + n) == 64 * Pow(64, 1 + n);
  }

  lemma ThreeMore(n: nat)
    ensures Pow(256, 3 + n) == 16777216 * Pow(256, n)
  {
    assert Pow(256, 3 + n) == 256 * Pow(256, 2 + n);
    assert Pow(256, 2 + n) == 256 * Pow(256, 1 + n);
  }

  /** Four characters are worth as much as three bytes. */
  lemma {:induction false} Weights(n: nat)
    ensures Pow(64, Chars(n)) == Pow(256, n) * Scale(n)
  {
    if n <= 3 {
      assert Pow(64, 1) == 64 && Pow(64, 2) == 4096 && Pow(64, 3) == 262144 && Pow(64, 4) == 16777216;
      assert Pow(256, 1) == 256 && Pow(256, 2) == 65536 && Pow(256, 3) == 16777216;
    } else {
      Weights(n - 3);
      hide Pow;
      FourMore(Chars(n - 3));
      ThreeMore(n - 3);
      Cycles.Reassociate(16777216, Pow(256, n - 3), Scale(n - 3));
    }
  }

  lemma SpellsJoin(a: seq<nat>, b: seq<nat>, s: seq<Byte>, t: seq<Byte>)
    requires Spells(a, s) && Spells(b, t)
    ensures Spells(a + b, s + t)
  {
    hide Alphabet;
  }

  lemma NothingSpelt()
    ensures Spells([], Stripped([])) && Radix(64, []) == 0 && Radix(256, []) == 0
  {
  }

  lemma SpellsLength(ds: seq<nat>, text: seq<Byte>)
    requires Spells(ds, text)
    ensures |ds| == |text|
  {
  }

  lemma BytesAsNumbers(a: seq<nat>, b: seq<nat>)
    ensures Radix(256, a + b) == Radix(256, a) * Pow(256, |b|) + Radix(256, b)
  {
    RadixJoin(256, a, b);
  }

  lemma Shifted(g: nat, p: nat, s: nat, r: nat)
    ensures g * (p * s) + r * s == (g * p + r) * s
  {
    Cycles.Distribute(g * p, r, s);
    Cycles.Reassociate(g, p, s);
  }

  lemma GroupIsNumber(x: seq<Byte>) returns (ds: seq<nat>)
    requires 1 <= |x| <= 3
    ensures Spells(ds, Unpadded(x)) && Radix(64, ds) == Radix(256, x) * Scale(|x|)
  {
    hide Alphabet, Radix, Spells;
    if |x| == 1 {
      ds := OneByte(x[0]);
      assert x == [x[0]];
    } else if |x| == 2 {
      ds := TwoBytes(x[0], x[1]);
      assert x == [x[0], x[1]];
    } else {
      ds := ThreeBytes(x[0], x[1], x[2]);
      assert x == [x[0], x[1], x[2]];
      assert Unpadded(x) == EncodeGroup(x);
    }
  }

  /** For any bytes, the characters before the padding are digits of the alphabet, and the number they make is the
      number the bytes make, times 1, 16 or 4: the bits that fill up the last character are zeros. */
  lemma {:induction false} TextIsNumber(x: seq<Byte>) returns (ds: seq<nat>)
    ensures Spells(ds, Stripped(x)) && Radix(64, ds) == Radix(256, x) * Scale(|x|)
    decreases |x|
  {
    hide EncodeGroup, Alphabet, Radix, Spells, Unpadded;
    if x == [] {
      ds := [];
      NothingSpelt();
    } else if |x| <= 3 {
      ds := GroupIsNumber(x);
    } else {
      var a, b, c := x[0], x[1], x[2];
      var first := ThreeBytes(a, b, c);
      var rest := TextIsNumber(x[3..]);
      assert x[..3] == [a, b, c] && x == [a, b, c] + x[3..];
      ds := first + rest;
      SpellsJoin(first, rest, EncodeGroup(x[..3]), Stripped(x[3..]));
      RadixJoin(64, first, rest);
      BytesAsNumbers([a, b, c], x[3..]);
      SpellsLength(rest, Stripped(x[3..]));
      CharsAre(x[3..]);
      Weights(|x| - 3);
      hide *;
      Shifted(Radix(256, [a, b, c]), Pow(256, |x| - 3), Scale(|x| - 3), Radix(256, x[3..]));
    }
  }

  function Equals(k: nat): (s: seq<Byte>)
    ensures |s| == k
  {
    seq(k, _ => '=' as int)
  }

  /** What is missing to a multiple of three. */
  function Missing(n: nat): nat {
    if n % 3 == 0 then 0 else 3 - n % 3
  }

  lemma MissingLess(n: nat)
    ensures Missing(n + 3) == Missing(n)
  {
  }

  lemma GroupIsPadded(x: seq<Byte>)
    requires 1 <= |x| <= 3
    ensures EncodeGroup(x) == Unpadded(x) + Equals(Missing(|x|))
  {
    hide Letter;
  }

  lemma JoinPadding(g: seq<Byte>, t: seq<Byte>, p: seq<Byte>)
    ensures g + (t + p) == (g + t) + p
  {
  }

  /** The rest of the text are equals signs that make its length a multiple of four. */
  lemma {:induction false} TextIsPadded(x: seq<Byte>)
    ensures Encode(x) == Stripped(x) + Equals(Missing(|x|)) && |Encode(x)| % 4 == 0
    decreases |x|
  {
    hide EncodeGroup, Equals, Unpadded, Missing;
    if x == [] {
      NothingMissing();
    } else if |x| <= 3 {
      GroupIsPadded(x);
    } else {
      TextIsPadded(x[3..]);
      MissingLess(|x| - 3);
      JoinPadding(EncodeGroup(x[..3]), Stripped(x[3..]), Equals(Missing(|x|)));
    }
  }

  lemma NothingMissing()
    ensures Missing(0) == 0 && Equals(0) == []
  {
  }

  // ----- any text as a number -----

  /** The bits of n characters that fill no byte. */
  function Spare(n: nat): nat {
    if n % 4 == 0 then 1 else if n % 4 == 1 then 64 else if n % 4 == 2 then 16 else 4
  }

  /** The bytes are what the digits give once the spare bits are cut off. */
  ghost predicate Cut(ds: seq<nat>, bytes: seq<Byte>) {
    && |bytes| == 3 * |ds| / 4
    && Radix(256, bytes) * Spare(|ds|) <= Radix(64, ds) < Radix(256, bytes) * Spare(|ds|) + Spare(|ds|)
  }

  lemma SpeltFound(ds: seq<nat>, c: seq<Byte>, i: nat)
    requires Spells(ds, c) && i < |ds|
    ensures |c| == |ds| && ds[i] < 64 && Find(c[i]) == ds[i]
  {
    hide Alphabet, Find;
    AcceptedIs(c[i]);
  }

  /** How the bits of neighbouring characters make bytes. */
  lemma ByteBits(a: nat, b: nat, c: nat, d: nat)
    requires a < 64 && b < 64 && c < 64 && d < 64
    ensures (a * 4 + b / 16 % 4) % 256 == 4 * a + b / 16
    ensures (b % 16 * 16 + c / 4 % 16) % 256 == 16 * (b % 16) + c / 4
    ensures (c % 4 * 64 + d) % 256 == 64 * (c % 4) + d
  {
  }

  lemma CutTwo(a: nat, b: nat)
    requires a < 64 && b < 64
    ensures Cut([a, b], [(a * 4 + b / 16 % 4) % 256])
  {
    hide Radix;
    RadixTwo(64, a, b);
    ByteBits(a, b, 0, 0);
    RadixOne(256, 4 * a + b / 16);
  }

  lemma CutThree(a: nat, b: nat, c: nat)
    requires a < 64 && b < 64 && c < 64
    ensures Cut([a, b, c], [(a * 4 + b / 16 % 4) % 256, (b % 16 * 16 + c / 4 % 16) % 256])
  {
    hide Radix;
    RadixThree(64, a, b, c);
    ByteBits(a, b, c, 0);
    RadixTwo(256, 4 * a + b / 16, 16 * (b % 16) + c / 4);
    ThreeValues(a, b, c);
  }

  lemma ThreeValues(a: nat, b: nat, c: nat)
    ensures var v := 256 * (4 * a + b / 16) + (16 * (b % 16) + c / 4);
      v * 4 <= 64 * (64 * a + b) + c < v * 4 + 4
  {
  }

  lemma CutFour(a: nat, b: nat, c: nat, d: nat)
    requires a < 64 && b < 64 && c < 64 && d < 64
    ensures Cut([a, b, c, d], Bytes(a, b, c, d))
  {
    hide Radix;
    RadixFour(64, a, b, c, d);
    ByteBits(a, b, c, d);
    RadixThree(256, 4 * a + b / 16, 16 * (b % 16) + c / 4, 64 * (c % 4) + d);
    FourValues(a, b, c, d);
  }

  lemma FourValues(a: nat, b: nat, c: nat, d: nat)
    ensures 256 * (256 * (4 * a + b / 16) + (16 * (b % 16) + c / 4)) + (64 * (c % 4) + d)
         == 64 * (64 * (64 * a + b) + c) + d
  {
  }

  lemma CutShort(ds: seq<nat>)
    requires |ds| == 0 || (|ds| == 1 && ds[0] < 64)
    ensures Cut(ds, [])
  {
    if |ds| == 1 {
      RadixOne(64, ds[0]);
      assert ds == [ds[0]];
    }
  }

  lemma GroupIsCut(ds: seq<nat>, c: seq<Byte>)
    requires Spells(ds, c) && |c| <= 4
    ensures Cut(ds, DecodeGroup(c))
  {
    hide Alphabet, Find, Cut, Bytes;
    forall i: nat | i < |ds|
      ensures ds[i] < 64 && Find(c[i]) == ds[i]
    {
      SpeltFound(ds, c, i);
    }
    if |ds| <= 1 {
      CutShort(ds);
    } else if |ds| == 2 {
      CutTwo(ds[0], ds[1]);
      assert ds == [ds[0], ds[1]];
    } else if |ds| == 3 {
      CutThree(ds[0], ds[1], ds[2]);
      assert ds == [ds[0], ds[1], ds[2]];
    } else {
      CutFour(ds[0], ds[1], ds[2], ds[3]);
      assert ds == [ds[0], ds[1], ds[2], ds[3]];
    }
  }

  /** n characters are worth as much as their bytes and the spare bits. */
  lemma {:induction false} SpareWeights(n: nat)
    ensures Pow(64, n) == Pow(256, 3 * n / 4) * Spare(n)
  {
    if n <= 3 {
      assert Pow(64, 1) == 64 && Pow(64, 2) == 4096 && Pow(64, 3) == 262144;
      assert Pow(256, 1) == 256 && Pow(256, 2) == 65536;
    } else {
      SpareWeights(n - 4);
      hide Pow;
      FourMore(n - 4);
      ThreeMore(3 * (n - 4) / 4);
      Cycles.Reassociate(16777216, Pow(256, 3 * (n - 4) / 4), Spare(n - 4));
    }
  }

  lemma FourIsExact(ds: seq<nat>, bytes: seq<Byte>)
    requires |ds| == 4 && Cut(ds, bytes)
    ensures |bytes| == 3 && Radix(64, ds) == Radix(256, bytes)
  {
  }

  lemma LengthsJoin(n: nat)
    ensures Spare(4 + n) == Spare(n) && 3 + 3 * n / 4 == 3 * (4 + n) / 4
  {
  }

  lemma CutJoins(first: seq<nat>, rest: seq<nat>, b: seq<Byte>, d: seq<Byte>)
    requires |first| == 4 && Cut(first, b) && Cut(rest, d)
    ensures Cut(first + rest, b + d)
  {
    FourIsExact(first, b);
    SpareWeights(|rest|);
    RadixJoin(64, first, rest);
    BytesAsNumbers(b, d);
    LengthsJoin(|rest|);
    hide Radix, Pow, Spare;
    Shifted(Radix(64, first), Pow(256, |d|), Spare(|rest|), Radix(256, d));
  }

  lemma {:induction false} AllIsCut(ds: seq<nat>, c: seq<Byte>)
    requires Spells(ds, c)
    ensures Cut(ds, DecodeAll(c))
    decreases |c|
  {
    hide Alphabet, DecodeGroup, Cut;
    if |c| < 4 {
      GroupIsCut(ds, c);
    } else {
      GroupIsCut(ds[..4], c[..4]);
      AllIsCut(ds[4..], c[4..]);
      CutJoins(ds[..4], ds[4..], DecodeGroup(c[..4]), DecodeAll(c[4..]));
      assert ds == ds[..4] + ds[4..];
    }
  }

  ghost predicate InAlphabet(c: Byte) {
    exists k: nat :: k < 64 && Alphabet(k) as int == c
  }

  /** For any text, the digits of the alphabet that it starts with, read as one number, are the bytes that
      decoding gives, but for the bits that fill no byte. */
  lemma DecodedIsNumber(s: seq<Byte>, ds: seq<nat>)
    requires |ds| <= |s| && Spells(ds, s[..|ds|]) && (|ds| < |s| ==> !InAlphabet(s[|ds|]))
    ensures |Decode(s)| == 3 * |ds| / 4
    ensures var n, spare := Radix(256, Decode(s)), Spare(|ds|);
      n * spare <= Radix(64, ds) < n * spare + spare
  {
    hide Alphabet, IsBase64, Find, Radix, DecodeAll, Spare;
    var n := |ds|;
    forall i | 0 <= i < n
      ensures s[i] != PAD && IsBase64(s[i])
    {
      SpeltAccepted(ds, s, i);
    }
    if n < |s| {
      AcceptedIs(s[n]);
    }
    ValidIs(s, n);
    AllIsCut(ds, s[..n]);
  }

  lemma SpeltAccepted(ds: seq<nat>, s: seq<Byte>, i: nat)
    requires |ds| <= |s| && Spells(ds, s[..|ds|]) && i < |ds|
    ensures s[i] != PAD && IsBase64(s[i])
  {
    hide Alphabet, Find;
    assert s[i] == s[..|ds|][i] == Alphabet(ds[i]) as int;
    AcceptedIs(s[i]);
  }

  /** One letter written out. */
  lemma WrittenOut()
    ensures Encode(['M' as int]) == ['T' as int, 'Q' as int, '=' as int, '=' as int]
  {
  }
}
