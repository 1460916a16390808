/** The order of kismet/alphanum.hpp in terms of printed numbers: what a digit is, and how strings compare that
    share a prefix and go on with decimal numbers. */
module AlphanumPrinted {
  import opened Alphanum

  /** The digits are the ten characters of this string, and nothing else; each has its place as its value. */
  const DIGITS := "0123456789"

  lemma DigitsAre(c: Ch)
    ensures IsDigit(c) <==> exists i: nat :: i < 10 && DIGITS[i] as int == c
    ensures forall i: nat :: i < 10 && DIGITS[i] as int == c ==> Digit(c) == i
  {
    forall i: nat | i < 10
      ensures DIGITS[i] as int == 48 + i
    {
      assert i == 0 || i == 1 || i == 2 || i == 3 || i == 4 || i == 5 || i == 6 || i == 7 || i == 8 || i == 9;
    }
    if 48 <= c <= 57 {
      assert DIGITS[c - 48] as int == c;
    }
  }

  /** A number in decimal, without leading zeros. */
  function Decimal(n: nat): seq<Ch> {
    if n < 10 then [48 + n] else Decimal(n / 10) + [48 + n % 10]
  }

  ghost predicate AllDigits(s: seq<Ch>) {
    forall i :: 0 <= i < |s| ==> IsDigit(s[i])
  }

  lemma {:induction false} DecimalValue(n: nat)
    ensures Decimal(n) != [] && AllDigits(Decimal(n)) && Value(Decimal(n)) == n
  {
    hide Value;
    if n < 10 {
      ValueNext([], 48 + n);
      assert [] + [48 + n] == Decimal(n);
      NoValue();
    } else {
      DecimalValue(n / 10);
      ValueNext(Decimal(n / 10), 48 + n % 10);
    }
  }

  lemma NoValue()
    ensures Value([]) == 0
  {
  }

  /** A printed number is one token with its value. */
  lemma DecimalIsNumber(n: nat)
    ensures Tokens(Decimal(n)) == [Number(n)]
  {
    hide Decimal, Value, Tokens;
    DecimalValue(n);
    OneRun(Decimal(n));
  }

  /** Does not continue a run of digits. */
  predicate Breaks(s: seq<Ch>) {
    s == [] || !IsDigit(s[0])
  }

  lemma RunThen(d: seq<Ch>, s: seq<Ch>)
    requires AllDigits(d) && Breaks(s)
    ensures RunLength(d + s) == |d|
  {
    assert (d + s)[0..] == d + s;
    RunAt(d + s, 0, |d|);
  }

  /** Two runs of digits, then anything else. */
  lemma ScanRuns(d: seq<Ch>, e: seq<Ch>, s: seq<Ch>, t: seq<Ch>)
    requires d != [] && e != [] && AllDigits(d) && AllDigits(e) && Breaks(s) && Breaks(t)
    ensures Scan(d + s, e + t)
         == if MachineValue(d) != MachineValue(e) then ToInt(MachineValue(d) - MachineValue(e)) else Scan(s, t)
  {
    hide MachineValue, ToInt, RunLength;
    RunThen(d, s);
    RunThen(e, t);
    assert (d + s)[..|d|] == d && (d + s)[|d|..] == s;
    assert (e + t)[..|e|] == e && (e + t)[|e|..] == t;
    assert IsDigit((d + s)[0]) && IsDigit((e + t)[0]);
  }

  /** What two strings share counts for nothing, unless it ends within a number. */
  lemma {:induction false} CommonPrefix(p: seq<Ch>, x: seq<Ch>, y: seq<Ch>)
    requires p == [] || !IsDigit(p[|p| - 1])
    ensures Scan(p + x, p + y) == Scan(x, y)
    decreases |p|
  {
    if p == [] {
      assert p + x == x && p + y == y;
    } else if IsDigit(p[0]) {
      var n := RunLength(p);
      var d, rest := p[..n], p[n..];
      CommonPrefix(rest, x, y);
      hide Scan;
      assert p + x == d + (rest + x) && p + y == d + (rest + y);
      ScanRuns(d, d, rest + x, rest + y);
    } else {
      CommonPrefix(p[1..], x, y);
      assert (p + x)[1..] == p[1..] + x && (p + y)[1..] == p[1..] + y;
    }
  }

  /** Behind a common prefix, two different numbers below 2 to the 31 compare as numbers, whatever follows; equal
      ones leave it to what follows. */
  lemma PrintedNumbers(p: seq<Ch>, m: nat, n: nat, s: seq<Ch>, t: seq<Ch>)
    requires p == [] || !IsDigit(p[|p| - 1])
    requires m < 0x8000_0000 && n < 0x8000_0000 && Breaks(s) && Breaks(t)
    ensures var r := Scan(p + (Decimal(m) + s), p + (Decimal(n) + t));
      if m == n then r == Scan(s, t) else Sign(r) == Sign(m - n)
  {
    hide Decimal, Scan, MachineValue, ToInt, Value;
    CommonPrefix(p, Decimal(m) + s, Decimal(n) + t);
    DecimalValue(m);
    DecimalValue(n);
    SmallMachineValue(Decimal(m));
    SmallMachineValue(Decimal(n));
    ScanRuns(Decimal(m), Decimal(n), s, t);
    SignOfSmall(m, n);
  }

  /** Behind a common prefix the end comes before everything, a number before any other character, and those by
      their codes. */
  lemma KindsInOrder(p: seq<Ch>, x: Ch, y: Ch, s: seq<Ch>, t: seq<Ch>)
    requires p == [] || !IsDigit(p[|p| - 1])
    ensures Scan(p, p + [y] + t) < 0 < Scan(p + [x] + s, p)
    ensures 48 <= x <= 57 && !(48 <= y <= 57) ==>
      Scan(p + [x] + s, p + [y] + t) < 0 < Scan(p + [y] + t, p + [x] + s)
    ensures !(48 <= x <= 57) && !(48 <= y <= 57) && x < y ==> Scan(p + [x] + s, p + [y] + t) < 0
  {
    CommonPrefix(p, [], [y] + t);
    CommonPrefix(p, [x] + s, []);
    CommonPrefix(p, [x] + s, [y] + t);
    CommonPrefix(p, [y] + t, [x] + s);
    assert p + [] == p && p + [x] + s == p + ([x] + s) && p + [y] + t == p + ([y] + t);
  }
}
