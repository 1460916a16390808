/** The natural-order comparator of kismet/alphanum.hpp (the branch without locales): the scanner with its
    machine arithmetic, the token order it stands for, and how long digit runs may be for the two to agree. */
module Alphanum {

  const TWO_31: nat := 0x8000_0000
  const TWO_32: nat := 0x1_0000_0000
  const TWO_64: nat := 0x1_0000_0000_0000_0000

  /** A character before the terminating NUL, with `char` signed or unsigned. */
  type Ch = c: int | -128 <= c < 256 && c != 0 witness 1

  predicate IsDigit(c: Ch) {
    48 <= c <= 57
  }

  function Digit(c: Ch): nat
    requires IsDigit(c)
  {
    c as int - 48
  }

  /** The length of the digit run a string starts with. */
  function RunLength(s: seq<Ch>): (n: nat)
    ensures n <= |s|
    ensures forall i :: 0 <= i < n ==> IsDigit(s[i])
    ensures n < |s| ==> !IsDigit(s[n])
  {
    if s == [] || !IsDigit(s[0]) then 0 else 1 + RunLength(s[1..])
  }

  // ----- the order it stands for -----

  datatype Token = Number(value: nat) | Character(code: int)

  function Value(digits: seq<Ch>): nat
    requires forall i :: 0 <= i < |digits| ==> IsDigit(digits[i])
  {
    if digits == [] then 0 else 10 * Value(digits[..|digits| - 1]) + Digit(digits[|digits| - 1])
  }

  /** Maximal digit runs are numbers, everything else is a character. */
  function Tokens(s: seq<Ch>): seq<Token>
    decreases |s|
  {
    if s == [] then []
    else if IsDigit(s[0]) then [Number(Value(s[..RunLength(s)]))] + Tokens(s[RunLength(s)..])
    else [Character(s[0])] + Tokens(s[1..])
  }

  function Sign(x: int): int {
    if x < 0 then -1 else if x > 0 then 1 else 0
  }

  /** Numbers by value, before characters by code. */
  function CompareToken(a: Token, b: Token): int {
    match (a, b)
    case (Number(x), Number(y)) => Sign(x - y)
    case (Number(_), Character(_)) => -1
    case (Character(_), Number(_)) => 1
    case (Character(x), Character(y)) => Sign(x - y)
  }

  /** Lexicographic order; the end comes before everything. */
  function Compare(s: seq<Token>, t: seq<Token>): int {
    if s == [] then (if t == [] then 0 else -1)
    else if t == [] then 1
    else if CompareToken(s[0], t[0]) != 0 then CompareToken(s[0], t[0])
    else Compare(s[1..], t[1..])
  }

  lemma {:induction false} CompareReflexive(s: seq<Token>, t: seq<Token>)
    ensures Compare(s, t) == 0 <==> s == t
  {
    if s != [] && t != [] {
      CompareReflexive(s[1..], t[1..]);
      assert s == [s[0]] + s[1..] && t == [t[0]] + t[1..];
    }
  }

  lemma {:induction false} CompareAntisymmetric(s: seq<Token>, t: seq<Token>)
    ensures Compare(s, t) == -Compare(t, s)
  {
    if s != [] && t != [] {
      CompareAntisymmetric(s[1..], t[1..]);
    }
  }

  lemma {:induction false} CompareTransitive(s: seq<Token>, t: seq<Token>, u: seq<Token>)
    requires Compare(s, t) <= 0 && Compare(t, u) <= 0
    ensures Compare(s, u) <= 0
    ensures Compare(s, t) < 0 || Compare(t, u) < 0 ==> Compare(s, u) < 0
  {
    if s != [] && t != [] && u != [] && CompareToken(s[0], t[0]) == 0 && CompareToken(t[0], u[0]) == 0 {
      CompareTransitive(s[1..], t[1..], u[1..]);
    }
  }

  // ----- the scanner -----

  /** A digit run as the scanner accumulates it in an `unsigned long`. */
  function MachineValue(digits: seq<Ch>): nat
    requires forall i :: 0 <= i < |digits| ==> IsDigit(digits[i])
  {
    if digits == [] then 0
    else (MachineValue(digits[..|digits| - 1]) * 10 + Digit(digits[|digits| - 1])) % TWO_64
  }

  /** A `long` difference returned as `int`: the low 32 bits, signed. */
  function ToInt(x: int): int {
    if x % TWO_32 < TWO_31 then x % TWO_32 else x % TWO_32 - TWO_32
  }

  /** What `alphanum_impl` returns. */
  function Scan(l: seq<Ch>, r: seq<Ch>): int
    decreases |l| + |r|
  {
    if l == [] || r == [] then
      if r != [] then -1 else if l != [] then 1 else 0
    else if IsDigit(l[0]) && IsDigit(r[0]) then
      var a, b := MachineValue(l[..RunLength(l)]), MachineValue(r[..RunLength(r)]);
      if a != b then ToInt(a - b) else Scan(l[RunLength(l)..], r[RunLength(r)..])
    else if IsDigit(l[0]) then -1
    else if IsDigit(r[0]) then 1
    else if l[0] != r[0] then l[0] as int - r[0] as int
    else Scan(l[1..], r[1..])
  }

  datatype Mode = STRING | NUMBER

  lemma RunAt(s: seq<Ch>, start: nat, i: nat)
    requires start <= i <= |s|
    requires forall k :: start <= k < i ==> IsDigit(s[k])
    requires i < |s| ==> !IsDigit(s[i])
    ensures RunLength(s[start..]) == i - start
    decreases i - start
  {
    if start < i {
      assert s[start..][1..] == s[start + 1..];
      RunAt(s, start + 1, i);
    }
  }

  /** The number loop: accumulate the digit run at position start. */
  method ReadNumber(s: seq<Ch>, start: nat) returns (value: nat, end: nat)
    requires start <= |s|
    ensures end == start + RunLength(s[start..])
    ensures value == MachineValue(s[start..][..RunLength(s[start..])])
  {
    value, end := 0, start;
    while end < |s| && IsDigit(s[end])
      invariant start <= end <= |s|
      invariant forall k :: start <= k < end ==> IsDigit(s[k])
      invariant value == MachineValue(s[start..end])
    {
      assert s[start..end + 1][..end - start] == s[start..end];
      value := (value * 10 + Digit(s[end])) % TWO_64;
      end := end + 1;
    }
    RunAt(s, start, end);
    assert s[start..][..end - start] == s[start..end];
  }

  function ScanAt(l: seq<Ch>, r: seq<Ch>, i: nat, j: nat): int
    requires i <= |l| && j <= |r|
  {
    Scan(l[i..], r[j..])
  }

  lemma ScanCharacters(l: seq<Ch>, r: seq<Ch>, i: nat, j: nat)
    requires i < |l| && j < |r| && !(IsDigit(l[i]) && IsDigit(r[j]))
    ensures ScanAt(l, r, i, j)
         == if IsDigit(l[i]) then -1 else if IsDigit(r[j]) then 1
            else if l[i] != r[j] then l[i] as int - r[j] as int else ScanAt(l, r, i + 1, j + 1)
  {
    assert l[i..][1..] == l[i + 1..] && r[j..][1..] == r[j + 1..];
  }

  lemma ScanNumbers(l: seq<Ch>, r: seq<Ch>, i: nat, j: nat, lEnd: nat, rEnd: nat)
    requires i < |l| && j < |r| && IsDigit(l[i]) && IsDigit(r[j])
    requires lEnd == i + RunLength(l[i..]) && rEnd == j + RunLength(r[j..])
    ensures i < lEnd <= |l| && j < rEnd <= |r|
    ensures var a, b := MachineValue(l[i..][..RunLength(l[i..])]), MachineValue(r[j..][..RunLength(r[j..])]);
      ScanAt(l, r, i, j) == if a != b then ToInt(a - b) else ScanAt(l, r, lEnd, rEnd)
  {
    assert l[i..][RunLength(l[i..])..] == l[lEnd..] && r[j..][RunLength(r[j..])..] == r[rEnd..];
  }

  lemma ScanEnds(l: seq<Ch>, r: seq<Ch>, i: nat, j: nat)
    requires i <= |l| && j <= |r| && (i == |l| || j == |r|)
    ensures ScanAt(l, r, i, j) == if j < |r| then -1 else if i < |l| then 1 else 0
  {
  }

  method AlphanumImpl(l: seq<Ch>, r: seq<Ch>) returns (result: int)
    ensures result == Scan(l, r)
  {
    hide ScanAt, MachineValue, RunLength;
    var mode := STRING;
    var i, j := 0, 0;
    ScanStart(l, r);
    while i < |l| && j < |r|
      invariant 0 <= i <= |l| && 0 <= j <= |r|
      invariant Scan(l, r) == ScanAt(l, r, i, j)
      invariant mode == NUMBER ==> i < |l| && j < |r| && IsDigit(l[i]) && IsDigit(r[j])
      decreases |l| - i, if mode == STRING then 1 else 0
    {
      if mode == STRING {
        ghost var start := i;
        while i < |l| && j < |r|
          invariant start <= i <= |l| && 0 <= j <= |r|
          invariant i == start ==> i < |l| && j < |r|
          invariant Scan(l, r) == ScanAt(l, r, i, j)
          decreases |l| - i
        {
          var lDigit, rDigit := IsDigit(l[i]), IsDigit(r[j]);
          if lDigit && rDigit {
            mode := NUMBER;
            break;
          }
          ScanCharacters(l, r, i, j);
          if lDigit { return -1; }
          if rDigit { return 1; }
          var diff := l[i] as int - r[j] as int;
          if diff != 0 { return diff; }
          i := i + 1;
          j := j + 1;
        }
      } else {
        var lInt, lEnd := ReadNumber(l, i);
        var rInt, rEnd := ReadNumber(r, j);
        ScanNumbers(l, r, i, j, lEnd, rEnd);
        var diff := lInt as int - rInt as int;
        if diff != 0 { return ToInt(diff); }
        i, j := lEnd, rEnd;
        mode := STRING;
      }
    }
    ScanEnds(l, r, i, j);
    if j < |r| { return -1; }
    if i < |l| { return 1; }
    return 0;
  }

  lemma ScanStart(l: seq<Ch>, r: seq<Ch>)
    ensures ScanAt(l, r, 0, 0) == Scan(l, r)
  {
    assert l[0..] == l && r[0..] == r;
  }

  // ----- the scanner against the order -----

  /** Every digit run of s has a value below n. */
  ghost predicate RunsBelow(s: seq<Ch>, n: nat) {
    forall i :: 0 <= i < |Tokens(s)| && Tokens(s)[i].Number? ==> Tokens(s)[i].value < n
  }

  lemma ModStep(x: nat, d: nat)
    ensures (x % TWO_64 * 10 + d) % TWO_64 == (x * 10 + d) % TWO_64
  {
    var q := x / TWO_64;
    assert x == q * TWO_64 + x % TWO_64;
    assert x * 10 + d == (x % TWO_64 * 10 + d) + (q * 10) * TWO_64;
    ModAddMultiple(x % TWO_64 * 10 + d, q * 10);
  }

  lemma ModAddMultiple(x: nat, k: nat)
    ensures (x + k * TWO_64) % TWO_64 == x % TWO_64
  {
  }

  /** The accumulator is the value of the run, modulo the width of `unsigned long`. */
  lemma {:induction false} MachineValueWraps(digits: seq<Ch>)
    requires forall i :: 0 <= i < |digits| ==> IsDigit(digits[i])
    ensures MachineValue(digits) == Value(digits) % 0x1_0000_0000_0000_0000
  {
    if digits != [] {
      MachineValueWraps(digits[..|digits| - 1]);
      ModStep(Value(digits[..|digits| - 1]), Digit(digits[|digits| - 1]));
    }
  }

  lemma TokensOfRun(s: seq<Ch>)
    requires s != [] && IsDigit(s[0])
    ensures 0 < RunLength(s)
    ensures Tokens(s) == [Number(Value(s[..RunLength(s)]))] + Tokens(s[RunLength(s)..])
  {
  }

  lemma TokensOfCharacter(s: seq<Ch>)
    requires s != [] && !IsDigit(s[0])
    ensures Tokens(s) == [Character(s[0])] + Tokens(s[1..])
  {
  }

  lemma RunsBelowRest(s: seq<Ch>, first: Token, rest: seq<Ch>, n: nat)
    requires Tokens(s) == [first] + Tokens(rest) && RunsBelow(s, n)
    ensures RunsBelow(rest, n)
    ensures first.Number? ==> first.value < n
  {
    hide Tokens;
    assert Tokens(s)[0] == first;
    forall i | 0 <= i < |Tokens(rest)| && Tokens(rest)[i].Number?
      ensures Tokens(rest)[i].value < n
    {
      assert Tokens(s)[i + 1] == Tokens(rest)[i];
    }
  }

  lemma CompareRest(s: seq<Token>, t: seq<Token>, a: Token, b: Token, rest: seq<Token>, rest': seq<Token>)
    requires s == [a] + rest && t == [b] + rest'
    ensures Compare(s, t) == if CompareToken(a, b) != 0 then CompareToken(a, b) else Compare(rest, rest')
  {
    assert s[1..] == rest && t[1..] == rest';
  }

  ghost predicate Agrees(l: seq<Ch>, r: seq<Ch>) {
    Sign(Scan(l, r)) == Compare(Tokens(l), Tokens(r))
  }

  lemma SignOfSmall(a: nat, b: nat)
    requires a < TWO_31 && b < TWO_31
    ensures Sign(ToInt(a - b)) == Sign(a - b)
  {
  }

  lemma {:induction false} ScanAgrees(l: seq<Ch>, r: seq<Ch>)
    requires RunsBelow(l, TWO_31) && RunsBelow(r, TWO_31)
    ensures Agrees(l, r)
    decreases |l| + |r|
  {
    if l != [] && r != [] {
      if IsDigit(l[0]) && IsDigit(r[0]) {
        NumbersAgree(l, r, l[..RunLength(l)], r[..RunLength(r)], l[RunLength(l)..], r[RunLength(r)..]);
      } else {
        CharactersAgree(l, r);
      }
    }
  }

  lemma {:induction false} NumbersAgree(l: seq<Ch>, r: seq<Ch>, run: seq<Ch>, run': seq<Ch>, rest: seq<Ch>, rest': seq<Ch>)
    requires RunsBelow(l, TWO_31) && RunsBelow(r, TWO_31)
    requires l != [] && r != [] && IsDigit(l[0]) && IsDigit(r[0])
    requires run == l[..RunLength(l)] && run' == r[..RunLength(r)]
    requires rest == l[RunLength(l)..] && rest' == r[RunLength(r)..]
    ensures Agrees(l, r)
    decreases |l| + |r|, 0
  {
    hide Tokens, Value, MachineValue, Compare, RunsBelow, RunLength;
    TokensOfRun(l);
    TokensOfRun(r);
    var a, b := Value(run), Value(run');
    RunsBelowRest(l, Number(a), rest, TWO_31);
    RunsBelowRest(r, Number(b), rest', TWO_31);
    MachineValueWraps(run);
    MachineValueWraps(run');
    SignOfSmall(a, b);
    CompareRest(Tokens(l), Tokens(r), Number(a), Number(b), Tokens(rest), Tokens(rest'));
    if a == b {
      ScanAgrees(rest, rest');
    }
  }

  lemma {:induction false} CharactersAgree(l: seq<Ch>, r: seq<Ch>)
    requires RunsBelow(l, TWO_31) && RunsBelow(r, TWO_31)
    requires l != [] && r != [] && !(IsDigit(l[0]) && IsDigit(r[0]))
    ensures Agrees(l, r)
    decreases |l| + |r|, 0
  {
    hide Tokens, Value, MachineValue, Compare, RunsBelow, RunLength;
    var a, rest := FirstToken(l);
    var b, rest' := FirstToken(r);
    CompareRest(Tokens(l), Tokens(r), a, b, Tokens(rest), Tokens(rest'));
    if !IsDigit(l[0]) && !IsDigit(r[0]) {
      RunsBelowRest(l, a, rest, TWO_31);
      RunsBelowRest(r, b, rest', TWO_31);
      ScanAgrees(rest, rest');
    }
  }

  lemma FirstToken(s: seq<Ch>) returns (token: Token, rest: seq<Ch>)
    requires s != []
    ensures Tokens(s) == [token] + Tokens(rest)
    ensures if IsDigit(s[0]) then token.Number? else token == Character(s[0]) && rest == s[1..]
  {
    if IsDigit(s[0]) {
      TokensOfRun(s);
      token, rest := Number(Value(s[..RunLength(s)])), s[RunLength(s)..];
    } else {
      TokensOfCharacter(s);
      token, rest := Character(s[0]), s[1..];
    }
  }

  // ----- how long a run may be -----

  const ZERO: seq<Ch> := [48]

  /** 2147483648, which is 2^31 */
  const LONG: seq<Ch> := [50, 49, 52, 55, 52, 56, 51, 54, 52, 56]

  lemma ValueNext(digits: seq<Ch>, c: Ch)
    requires forall i :: 0 <= i < |digits| ==> IsDigit(digits[i])
    requires IsDigit(c)
    ensures Value(digits + [c]) == 10 * Value(digits) + Digit(c)
  {
    assert (digits + [c])[..|digits|] == digits;
  }

  lemma ValueOfLong()
    ensures forall i :: 0 <= i < |LONG| ==> IsDigit(LONG[i])
    ensures Value(LONG) == TWO_31
  {
    hide Value;
    ValueOfTwentyOne();
    ValueNext([50, 49], 52);
    ValueNext([50, 49, 52], 55);
    ValueNext([50, 49, 52, 55], 52);
    ValueNext([50, 49, 52, 55, 52], 56);
    ValueNext([50, 49, 52, 55, 52, 56], 51);
    ValueNext([50, 49, 52, 55, 52, 56, 51], 54);
    ValueNext([50, 49, 52, 55, 52, 56, 51, 54], 52);
    ValueNext([50, 49, 52, 55, 52, 56, 51, 54, 52], 56);
    assert [50, 49] + [52] == LONG[..3] && LONG[..3] + [55] == LONG[..4] && LONG[..4] + [52] == LONG[..5];
    assert LONG[..5] + [56] == LONG[..6] && LONG[..6] + [51] == LONG[..7] && LONG[..7] + [54] == LONG[..8];
    assert LONG[..8] + [52] == LONG[..9] && LONG[..9] + [56] == LONG;
    assert LONG[..3] == [50, 49, 52] && LONG[..4] == [50, 49, 52, 55] && LONG[..5] == [50, 49, 52, 55, 52];
    assert LONG[..6] == [50, 49, 52, 55, 52, 56] && LONG[..7] == [50, 49, 52, 55, 52, 56, 51];
    assert LONG[..8] == [50, 49, 52, 55, 52, 56, 51, 54] && LONG[..9] == [50, 49, 52, 55, 52, 56, 51, 54, 52];
  }

  lemma ValueOfTwentyOne()
    ensures Value([50, 49]) == 21
  {
    var none: seq<Ch> := [];
    assert Value(none) == 0;
    ValueNext(none, 50);
    ValueNext([50], 49);
    assert none + [50] == [50] && [50] + [49] == [50, 49];
  }

  /** A string that is one digit run. */
  lemma OneRun(s: seq<Ch>)
    requires s != [] && forall i :: 0 <= i < |s| ==> IsDigit(s[i])
    ensures RunLength(s) == |s| && Tokens(s) == [Number(Value(s))]
  {
    hide Value;
    assert s[0..] == s && s[..|s|] == s && s[|s|..] == [];
    RunAt(s, 0, |s|);
  }

  lemma SmallMachineValue(s: seq<Ch>)
    requires forall i :: 0 <= i < |s| ==> IsDigit(s[i])
    requires Value(s) < TWO_64
    ensures MachineValue(s) == Value(s)
  {
    hide Value, MachineValue;
    MachineValueWraps(s);
  }

  lemma ScanOfRuns(s: seq<Ch>, t: seq<Ch>)
    requires s != [] && forall i :: 0 <= i < |s| ==> IsDigit(s[i])
    requires t != [] && forall i :: 0 <= i < |t| ==> IsDigit(t[i])
    requires Value(s) < TWO_64 && Value(t) < TWO_64 && Value(s) != Value(t)
    ensures Scan(s, t) == ToInt(Value(s) - Value(t))
    ensures Compare(Tokens(s), Tokens(t)) == Sign(Value(s) - Value(t))
  {
    hide Value, MachineValue, ToInt, RunLength, Tokens;
    OneRun(s);
    OneRun(t);
    assert s[..|s|] == s && t[..|t|] == t;
    SmallMachineValue(s);
    SmallMachineValue(t);
  }

  lemma ValueOfZero()
    ensures Value(ZERO) == 0
  {
    ValueNext([], 48);
    assert ZERO == [] + [48];
  }

  lemma Misordered(zero: seq<Ch>, long: seq<Ch>)
    requires zero != [] && forall i :: 0 <= i < |zero| ==> IsDigit(zero[i])
    requires long != [] && forall i :: 0 <= i < |long| ==> IsDigit(long[i])
    requires Value(zero) == 0 && Value(long) == TWO_31
    ensures Scan(zero, long) < 0 && Scan(long, zero) < 0
    ensures !Agrees(long, zero)
    ensures forall n: nat :: n > TWO_31 ==> RunsBelow(long, n) && RunsBelow(zero, n)
  {
    hide Value, Scan, Tokens, Compare, RunLength;
    OneRun(long);
    OneRun(zero);
    ScanOfRuns(long, zero);
    ScanOfRuns(zero, long);
  }

  /** The difference 2^31 does not fit an int: both strings come out less than the other. */
  lemma LongRunsMisordered()
    ensures Scan(ZERO, LONG) < 0 && Scan(LONG, ZERO) < 0
    ensures !Agrees(LONG, ZERO)
    ensures forall n: nat :: n > TWO_31 ==> RunsBelow(LONG, n) && RunsBelow(ZERO, n)
  {
    hide Value, Scan, RunsBelow, Agrees;
    ValueOfLong();
    ValueOfZero();
    Misordered(ZERO, LONG);
  }

  lemma RunsBelowMore(s: seq<Ch>, m: nat, n: nat)
    requires RunsBelow(s, m) && m <= n
    ensures RunsBelow(s, n)
  {
    hide Tokens;
  }

  /** The comparator is the natural order on all strings with runs below n exactly when n is at most 2^31. */
  lemma AgreesBelow(n: nat)
    ensures (forall l, r :: RunsBelow(l, n) && RunsBelow(r, n) ==> Agrees(l, r)) <==> n <= 0x8000_0000
  {
    hide RunsBelow, Agrees;
    if n <= TWO_31 {
      forall l, r | RunsBelow(l, n) && RunsBelow(r, n)
        ensures Agrees(l, r)
      {
        RunsBelowMore(l, n, TWO_31);
        RunsBelowMore(r, n, TWO_31);
        ScanAgrees(l, r);
      }
    } else {
      LongRunsMisordered();
    }
  }

  // ----- the comparator as an ordering for sets and sorts -----

  /** `alphanum_less` */
  predicate Less(l: seq<Ch>, r: seq<Ch>) {
    Scan(l, r) < 0
  }

  lemma LessIsCompare(l: seq<Ch>, r: seq<Ch>)
    requires RunsBelow(l, TWO_31) && RunsBelow(r, TWO_31)
    ensures Less(l, r) <==> Compare(Tokens(l), Tokens(r)) < 0
    ensures !Less(l, r) && !Less(r, l) <==> Tokens(l) == Tokens(r)
  {
    ScanAgrees(l, r);
    ScanAgrees(r, l);
    CompareAntisymmetric(Tokens(l), Tokens(r));
    CompareReflexive(Tokens(l), Tokens(r));
  }

  /** A strict weak order: irreflexive, transitive, and with transitive incomparability. */
  lemma LessIsStrictWeakOrder(l: seq<Ch>, r: seq<Ch>, s: seq<Ch>)
    requires RunsBelow(l, TWO_31) && RunsBelow(r, TWO_31) && RunsBelow(s, TWO_31)
    ensures !Less(l, l)
    ensures Less(l, r) && Less(r, s) ==> Less(l, s)
    ensures Less(l, r) ==> Less(l, s) || Less(s, r)
  {
    LessIsCompare(l, l);
    LessIsCompare(l, r);
    LessIsCompare(r, s);
    LessIsCompare(l, s);
    LessIsCompare(s, r);
    if Less(l, r) && Less(r, s) {
      CompareTransitive(Tokens(l), Tokens(r), Tokens(s));
    }
    if !Less(l, s) && !Less(s, r) {
      CompareAntisymmetric(Tokens(l), Tokens(s));
      CompareAntisymmetric(Tokens(s), Tokens(r));
      CompareAntisymmetric(Tokens(l), Tokens(r));
      CompareTransitive(Tokens(r), Tokens(s), Tokens(l));
    }
  }

  /** Beyond runs of 2^31 it is no ordering at all: two strings can each be less than the other. */
  lemma LessAsymmetricBelow(n: nat)
    ensures (forall l, r :: RunsBelow(l, n) && RunsBelow(r, n) ==> !(Less(l, r) && Less(r, l))) <==> n <= 0x8000_0000
  {
    hide RunsBelow, Less;
    if n <= TWO_31 {
      forall l, r | RunsBelow(l, n) && RunsBelow(r, n)
        ensures !(Less(l, r) && Less(r, l))
      {
        RunsBelowMore(l, n, TWO_31);
        RunsBelowMore(r, n, TWO_31);
        LessIsStrictWeakOrder(l, r, l);
      }
    } else {
      LongRunsMisordered();
      LessOfLong();
    }
  }

  lemma LessOfLong()
    ensures Less(ZERO, LONG) && Less(LONG, ZERO)
  {
    hide Scan;
    LongRunsMisordered();
  }
}
