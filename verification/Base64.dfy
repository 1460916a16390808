/** The base64 codec of kismet/base64.cc, section 4 of RFC 4648. Text is a sequence of character codes. */
module Base64 {
  import opened Common

  const PAD: Byte := 61

  /** `b64_values[k]`: A-Z, a-z, 0-9, + and / */
  function Letter(k: nat): Byte
    requires k < 64
  {
    if k < 26 then 65 + k else if k < 52 then 97 + (k - 26) else if k < 62 then 48 + (k - 52) else if k == 62 then 43 else 47
  }

  predicate IsBase64(c: Byte) {
    65 <= c <= 90 || 97 <= c <= 122 || 48 <= c <= 57 || c == 43 || c == 47
  }

  /** `b64_values.find(c)` kept in an unsigned char: a failed search leaves 255. */
  function Find(c: Byte): Byte {
    if 65 <= c <= 90 then c - 65
    else if 97 <= c <= 122 then c - 97 + 26
    else if 48 <= c <= 57 then c - 48 + 52
    else if c == 43 then 62
    else if c == 47 then 63
    else 255
  }

  lemma LetterFound(k: nat)
    requires k < 64
    ensures IsBase64(Letter(k)) && Find(Letter(k)) == k && Letter(k) != PAD
  {
  }

  // ----- encoding -----

  /** The group of one, two or three bytes at the front. */
  function EncodeGroup(x: seq<Byte>): (r: seq<Byte>)
    requires 1 <= |x| <= 3
    ensures |r| == 4
  {
    if |x| == 1 then [Letter(x[0] / 4), Letter(x[0] % 4 * 16), PAD, PAD]
    else if |x| == 2 then [Letter(x[0] / 4), Letter(x[0] % 4 * 16 + x[1] / 16), Letter(x[1] % 16 * 4), PAD]
    else [Letter(x[0] / 4), Letter(x[0] % 4 * 16 + x[1] / 16), Letter(x[1] % 16 * 4 + x[2] / 64), Letter(x[2] % 64)]
  }

  function Encode(x: seq<Byte>): seq<Byte> {
    if x == [] then [] else if |x| <= 3 then EncodeGroup(x) else EncodeGroup(x[..3]) + Encode(x[3..])
  }

  /** `in_str[pos] >> 2` where `char` may be signed. */
  function FirstIndex(b: Byte, signedChar: bool): int {
    if signedChar && b >= 128 then (b - 256) / 4 else b / 4
  }

  /** Every index into the alphabet is in range. */
  ghost predicate Encodable(x: seq<Byte>, signedChar: bool) {
    forall i :: 0 <= i < |x| && i % 3 == 0 ==> FirstIndex(x[i], signedChar) >= 0
  }

  lemma FirstIndexInRange(b: Byte, signedChar: bool)
    ensures FirstIndex(b, signedChar) >= 0 <==> !signedChar || b < 128
    ensures FirstIndex(b, signedChar) >= 0 ==> FirstIndex(b, signedChar) == b / 4 < 64
  {
  }

  datatype Encoded = Text(text: seq<Byte>) | OutOfRange

  function GroupEnd(x: seq<Byte>, pos: nat): nat {
    if pos + 3 <= |x| then pos + 3 else |x|
  }

  lemma EncodeNext(x: seq<Byte>, pos: nat)
    requires pos < |x|
    ensures Encode(x[pos..]) == EncodeGroup(x[pos..GroupEnd(x, pos)]) + Encode(x[GroupEnd(x, pos)..])
  {
    if pos + 3 <= |x| {
      assert x[pos..][..3] == x[pos..pos + 3] && x[pos..][3..] == x[pos + 3..];
    } else {
      assert x[pos..|x|] == x[pos..] && x[|x|..] == [];
    }
  }

  /** One turn of the encoding loop: the four characters for the bytes at pos. */
  method EncodeOne(x: seq<Byte>, pos: nat, signedChar: bool) returns (group: seq<Byte>)
    requires pos < |x| && FirstIndex(x[pos], signedChar) >= 0
    ensures group == EncodeGroup(x[pos..GroupEnd(x, pos)])
  {
    hide Letter;
    FirstIndexInRange(x[pos], signedChar);
    group := [Letter(FirstIndex(x[pos], signedChar))];
    if pos + 1 < |x| {
      group := group + [Letter(x[pos] % 4 * 16 + x[pos + 1] / 16)];
    } else {
      group := group + [Letter(x[pos] % 4 * 16)];
    }
    if pos + 2 < |x| {
      group := group + [Letter(x[pos + 1] % 16 * 4 + x[pos + 2] / 64)];
      group := group + [Letter(x[pos + 2] % 64)];
    } else if pos + 1 < |x| {
      group := group + [Letter(x[pos + 1] % 16 * 4)];
      group := group + [PAD];
    } else {
      group := group + [PAD, PAD];
    }
  }

  /** On a platform with signed `char` the first index of a group can be negative. */
  method EncodeText(x: seq<Byte>, signedChar: bool) returns (r: Encoded)
    ensures r == if Encodable(x, signedChar) then Text(Encode(x)) else OutOfRange
  {
    hide Encode, EncodeGroup, FirstIndex;
    var text: seq<Byte> := [];
    var pos := 0;
    EncodeStart(x);
    while pos < |x|
      invariant pos % 3 == 0
      invariant forall i :: 0 <= i < |x| && i < pos && i % 3 == 0 ==> FirstIndex(x[i], signedChar) >= 0
      invariant Encode(x) == text + Encode(x[if pos <= |x| then pos else |x|..])
      decreases |x| - pos
    {
      EncodeNext(x, pos);
      if FirstIndex(x[pos], signedChar) < 0 {
        return OutOfRange;
      }
      var group := EncodeOne(x, pos, signedChar);
      text := text + group;
      pos := pos + 3;
    }
    return Text(text);
  }

  lemma EncodeStart(x: seq<Byte>)
    ensures Encode(x[0..]) == Encode(x) && Encode(x[|x|..]) == []
  {
    assert x[0..] == x;
  }

  /** For platforms with signed `char`, exactly the inputs whose every third byte is below 128 are encoded. */
  lemma SignedEncodable(x: seq<Byte>)
    ensures Encodable(x, false)
    ensures Encodable(x, true) <==> forall i :: 0 <= i < |x| && i % 3 == 0 ==> x[i] < 128
  {
    forall i | 0 <= i < |x|
      ensures FirstIndex(x[i], true) >= 0 <==> x[i] < 128
      ensures FirstIndex(x[i], false) >= 0
    {
      FirstIndexInRange(x[i], true);
      FirstIndexInRange(x[i], false);
    }
  }

  // ----- decoding -----

  /** The three bytes of four values, wrapping as unsigned characters do. */
  function Bytes(v0: Byte, v1: Byte, v2: Byte, v3: Byte): (r: seq<Byte>)
    ensures |r| == 3
  {
    [(v0 * 4 + v1 / 16 % 4) % 256, (v1 % 16 * 16 + v2 / 4 % 16) % 256, (v2 % 4 * 64 + v3) % 256]
  }

  /** Up to four characters; k of them leave k - 1 bytes, whatever fills the missing cells. */
  function DecodeGroup(c: seq<Byte>): seq<Byte>
    requires |c| <= 4
  {
    if |c| == 4 then Bytes(Find(c[0]), Find(c[1]), Find(c[2]), Find(c[3]))
    else if |c| == 3 then [(Find(c[0]) * 4 + Find(c[1]) / 16 % 4) % 256, (Find(c[1]) % 16 * 16 + Find(c[2]) / 4 % 16) % 256]
    else if |c| == 2 then [(Find(c[0]) * 4 + Find(c[1]) / 16 % 4) % 256]
    else []
  }

  function DecodeAll(c: seq<Byte>): seq<Byte> {
    if |c| < 4 then DecodeGroup(c) else DecodeGroup(c[..4]) + DecodeAll(c[4..])
  }

  /** The characters before the first that is padding or not of the alphabet. */
  function Valid(s: seq<Byte>): (n: nat)
    ensures n <= |s|
    ensures forall i :: 0 <= i < n ==> s[i] != PAD && IsBase64(s[i])
    ensures n < |s| ==> s[n] == PAD || !IsBase64(s[n])
  {
    if s == [] || s[0] == PAD || !IsBase64(s[0]) then 0 else 1 + Valid(s[1..])
  }

  function Decode(s: seq<Byte>): seq<Byte> {
    DecodeAll(s[..Valid(s)])
  }

  lemma {:induction false} DecodeAppend(c: seq<Byte>, d: seq<Byte>)
    requires |c| % 4 == 0
    ensures DecodeAll(c + d) == DecodeAll(c) + DecodeAll(d)
    decreases |c|
  {
    if c == [] {
      assert c + d == d;
    } else {
      assert (c + d)[..4] == c[..4] && (c + d)[4..] == c[4..] + d;
      DecodeAppend(c[4..], d);
    }
  }

  lemma {:induction false} ValidIs(s: seq<Byte>, n: nat)
    requires n <= |s| && forall i :: 0 <= i < n ==> s[i] != PAD && IsBase64(s[i])
    requires n < |s| ==> s[n] == PAD || !IsBase64(s[n])
    ensures Valid(s) == n
  {
    if n != 0 {
      ValidIs(s[1..], n - 1);
    }
  }

  /** The values of the four cells, in place, and the bytes they make; `cells` counts those that were filled. */
  method Convert(c4: array<Byte>, c3: array<Byte>, cells: nat)
    requires c4.Length == 4 && c3.Length == 3 && c4 != c3 && 1 <= cells <= 4
    modifies c4, c3
    ensures c3[..cells - 1] == DecodeGroup(old(c4[..cells]))
  {
    hide Find;
    for i := 0 to 4
      invariant forall j :: 0 <= j < i ==> c4[j] == Find(old(c4[j]))
      invariant forall j :: i <= j < 4 ==> c4[j] == old(c4[j])
    {
      c4[i] := Find(c4[i]);
    }
    var bytes := Bytes(c4[0], c4[1], c4[2], c4[3]);
    c3[0], c3[1], c3[2] := bytes[0], bytes[1], bytes[2];
  }

  method DecodeText(s: seq<Byte>) returns (ret: seq<Byte>)
    ensures ret == Decode(s)
  {
    hide DecodeAll, DecodeGroup, Valid;
    ret := [];
    var i, n := 0, 0;
    var c4, c3 := new Byte[4], new Byte[3];
    var len := |s|;
    DecodeNothing();
    while len > 0 && s[n] != PAD && IsBase64(s[n])
      invariant 0 <= n <= |s| && 0 <= len && n + len == |s| && 0 <= i < 4 && i <= n && (n - i) % 4 == 0
      invariant forall j :: 0 <= j < n ==> s[j] != PAD && IsBase64(s[j])
      invariant c4[..i] == s[n - i..n]
      invariant ret == DecodeAll(s[..n - i])
    {
      len := len - 1;
      c4[i] := s[n];
      i, n := i + 1, n + 1;
      assert c4[..i] == s[n - i..n];
      if i == 4 {
        DecodeFour(s[..n - 4], s[n - 4..n]);
        assert s[..n - 4] + s[n - 4..n] == s[..n];
        Convert(c4, c3, 4);
        ret := ret + c3[..3];
        i := 0;
      }
    }
    ValidIs(s, n);
    DecodePartial(s[..n - i], s[n - i..n]);
    assert s[..n - i] + s[n - i..n] == s[..n];
    if i != 0 {
      for j := i to 4
        invariant c4[..i] == s[n - i..n]
      {
        c4[j] := 0;
      }
      Convert(c4, c3, i);
      ret := ret + c3[..i - 1];
    }
  }

  lemma DecodeNothing()
    ensures DecodeAll([]) == []
  {
  }

  lemma DecodeFour(c: seq<Byte>, d: seq<Byte>)
    requires |c| % 4 == 0 && |d| == 4
    ensures DecodeAll(c + d) == DecodeAll(c) + DecodeGroup(d)
  {
    DecodeAppend(c, d);
    assert d[..4] == d && d[4..] == [];
  }

  lemma DecodePartial(c: seq<Byte>, d: seq<Byte>)
    requires |c| % 4 == 0 && |d| < 4
    ensures DecodeAll(c + d) == DecodeAll(c) + DecodeGroup(d)
    ensures d == [] ==> DecodeGroup(d) == []
  {
    DecodeAppend(c, d);
  }

  // ----- round trip -----

  /** The characters of an encoded group before its padding. */
  function Unpadded(x: seq<Byte>): seq<Byte>
    requires 1 <= |x| <= 3
  {
    EncodeGroup(x)[..|x| + 1]
  }

  lemma FirstRecovered(a: Byte, low: nat)
    requires low < 16
    ensures a / 4 < 64 && a % 4 * 16 + low < 64
    ensures (a / 4 * 4 + (a % 4 * 16 + low) / 16 % 4) % 256 == a
  {
  }

  lemma SecondRecovered(high: nat, b: Byte, low: nat)
    requires high < 4 && low < 4
    ensures high * 16 + b / 16 < 64 && b % 16 * 4 + low < 64
    ensures ((high * 16 + b / 16) % 16 * 16 + (b % 16 * 4 + low) / 4 % 16) % 256 == b
  {
  }

  lemma ThirdRecovered(high: nat, c: Byte)
    requires high < 16
    ensures high * 4 + c / 64 < 64 && c % 64 < 64
    ensures ((high * 4 + c / 64) % 4 * 64 + c % 64) % 256 == c
  {
  }

  ghost predicate GroupReturns(x: seq<Byte>)
    requires 1 <= |x| <= 3
  {
    && (forall i :: 0 <= i <= |x| ==> EncodeGroup(x)[i] != PAD && IsBase64(EncodeGroup(x)[i]))
    && (forall i :: |x| < i < 4 ==> EncodeGroup(x)[i] == PAD)
    && DecodeGroup(Unpadded(x)) == x
  }

  lemma ReturnsFrom(x: seq<Byte>, text: seq<Byte>)
    requires 1 <= |x| <= 3 && text == Unpadded(x) && DecodeGroup(text) == x
    requires forall i :: 0 <= i <= |x| ==> text[i] != PAD && IsBase64(text[i])
    requires forall i :: |x| < i < 4 ==> EncodeGroup(x)[i] == PAD
    ensures GroupReturns(x)
  {
    hide EncodeGroup, DecodeGroup, IsBase64;
    forall i | 0 <= i <= |x|
      ensures EncodeGroup(x)[i] != PAD && IsBase64(EncodeGroup(x)[i])
    {
      assert text[i] == EncodeGroup(x)[i];
    }
  }

  lemma DecodeLetters(k0: nat, k1: nat, k2: nat, k3: nat)
    requires k0 < 64 && k1 < 64 && k2 < 64 && k3 < 64
    ensures DecodeGroup([Letter(k0), Letter(k1)]) == Bytes(k0, k1, k2, k3)[..1]
    ensures DecodeGroup([Letter(k0), Letter(k1), Letter(k2)]) == Bytes(k0, k1, k2, k3)[..2]
    ensures DecodeGroup([Letter(k0), Letter(k1), Letter(k2), Letter(k3)]) == Bytes(k0, k1, k2, k3)
  {
    hide Letter, Find;
    LetterFound(k0);
    LetterFound(k1);
    LetterFound(k2);
    LetterFound(k3);
  }

  lemma LettersValid(k0: nat, k1: nat, k2: nat, k3: nat)
    requires k0 < 64 && k1 < 64 && k2 < 64 && k3 < 64
    ensures IsBase64(Letter(k0)) && IsBase64(Letter(k1)) && IsBase64(Letter(k2)) && IsBase64(Letter(k3))
    ensures Letter(k0) != PAD && Letter(k1) != PAD && Letter(k2) != PAD && Letter(k3) != PAD
  {
    hide Letter, IsBase64;
    LetterFound(k0);
    LetterFound(k1);
    LetterFound(k2);
    LetterFound(k3);
  }

  lemma BytesRecovered(a: Byte, b: Byte, c: Byte)
    ensures a / 4 < 64 && a % 4 * 16 + b / 16 < 64 && b % 16 * 4 + c / 64 < 64 && c % 64 < 64
    ensures Bytes(a / 4, a % 4 * 16 + b / 16, b % 16 * 4 + c / 64, c % 64) == [a, b, c]
  {
    FirstRecovered(a, b / 16);
    SecondRecovered(a % 4, b, c / 64);
    ThirdRecovered(b % 16, c);
  }

  lemma OneReturns(a: Byte)
    ensures GroupReturns([a])
  {
    hide Letter, IsBase64, Find, Bytes, DecodeGroup;
    BytesRecovered(a, 0, 0);
    DecodeLetters(a / 4, a % 4 * 16, 0, 0);
    LettersValid(a / 4, a % 4 * 16, 0, 0);
    assert [a, 0, 0][..1] == [a];
    ReturnsFrom([a], [Letter(a / 4), Letter(a % 4 * 16)]);
  }

  lemma TwoReturn(a: Byte, b: Byte)
    ensures GroupReturns([a, b])
  {
    hide Letter, IsBase64, Find, Bytes, DecodeGroup;
    BytesRecovered(a, b, 0);
    DecodeLetters(a / 4, a % 4 * 16 + b / 16, b % 16 * 4, 0);
    LettersValid(a / 4, a % 4 * 16 + b / 16, b % 16 * 4, 0);
    assert [a, b, 0][..2] == [a, b];
    ReturnsFrom([a, b], [Letter(a / 4), Letter(a % 4 * 16 + b / 16), Letter(b % 16 * 4)]);
  }

  lemma ThreeReturn(a: Byte, b: Byte, c: Byte)
    ensures GroupReturns([a, b, c])
  {
    hide Letter, IsBase64, Find, Bytes, DecodeGroup;
    BytesRecovered(a, b, c);
    DecodeLetters(a / 4, a % 4 * 16 + b / 16, b % 16 * 4 + c / 64, c % 64);
    LettersValid(a / 4, a % 4 * 16 + b / 16, b % 16 * 4 + c / 64, c % 64);
    ReturnsFrom([a, b, c], [Letter(a / 4), Letter(a % 4 * 16 + b / 16), Letter(b % 16 * 4 + c / 64), Letter(c % 64)]);
  }

  lemma GroupRoundTrip(x: seq<Byte>)
    requires 1 <= |x| <= 3
    ensures GroupReturns(x)
  {
    hide GroupReturns;
    if |x| == 1 {
      assert x == [x[0]];
      OneReturns(x[0]);
    } else if |x| == 2 {
      assert x == [x[0], x[1]];
      TwoReturn(x[0], x[1]);
    } else {
      assert x == [x[0], x[1], x[2]];
      ThreeReturn(x[0], x[1], x[2]);
    }
  }

  /** Encoded text without its padding. */
  function Stripped(x: seq<Byte>): seq<Byte> {
    if x == [] then [] else if |x| <= 3 then Unpadded(x) else EncodeGroup(x[..3]) + Stripped(x[3..])
  }

  lemma {:induction false} StrippedRoundTrip(x: seq<Byte>)
    ensures DecodeAll(Stripped(x)) == x
    ensures forall i :: 0 <= i < |Stripped(x)| ==> Stripped(x)[i] != PAD && IsBase64(Stripped(x)[i])
    ensures |Stripped(x)| <= |Encode(x)| && Encode(x)[..|Stripped(x)|] == Stripped(x)
    ensures forall i :: |Stripped(x)| <= i < |Encode(x)| ==> Encode(x)[i] == PAD
    decreases |x|
  {
    hide EncodeGroup, DecodeGroup, DecodeAll, IsBase64;
    if x == [] {
      DecodeNothing();
    } else if |x| <= 3 {
      GroupRoundTrip(x);
      DecodePiece(Unpadded(x));
    } else {
      GroupRoundTrip(x[..3]);
      assert |EncodeGroup(x[..3])| == 4;
      StrippedRoundTrip(x[3..]);
      var g, rest := EncodeGroup(x[..3]), Stripped(x[3..]);
      assert Unpadded(x[..3]) == g;
      DecodeFront(g, rest);
      assert x[..3] + x[3..] == x;
      assert Encode(x)[..|g + rest|] == g + Encode(x[3..])[..|rest|];
    }
  }

  lemma DecodePiece(g: seq<Byte>)
    requires |g| <= 4
    ensures DecodeAll(g) == DecodeGroup(g)
  {
    if |g| == 4 {
      assert g[..4] == g && g[4..] == [];
    }
  }

  lemma DecodeFront(g: seq<Byte>, rest: seq<Byte>)
    requires |g| == 4
    ensures DecodeAll(g + rest) == DecodeGroup(g) + DecodeAll(rest)
  {
    assert (g + rest)[..4] == g && (g + rest)[4..] == rest;
  }

  /** Decoding gives back every byte string, with any number of its padding characters, or none, and with
      anything at all behind the padding. */
  lemma RoundTrip(x: seq<Byte>, tail: seq<Byte>)
    requires tail == [] || tail[0] == PAD || !IsBase64(tail[0])
    ensures Decode(Encode(x)) == x
    ensures Decode(Stripped(x) + tail) == x
  {
    hide DecodeAll, Encode, Stripped, IsBase64;
    StrippedRoundTrip(x);
    ValidIs(Encode(x), |Stripped(x)|);
    ValidIs(Stripped(x) + tail, |Stripped(x)|);
    assert (Stripped(x) + tail)[..|Stripped(x)|] == Stripped(x);
  }
}
