/** Source definitions in kismet/capture_framework.c, `interface:flag=value,flag="quoted,value",...`: the
    scanner that finds a flag in the text, and that it finds what was printed. */
module FlagParser {
  import opened Common

  function LowerChar(c: char): char {
    if 'A' <= c <= 'Z' then (c as int + 32) as char else c
  }

  /** Equal but for case, as `strncasecmp` and the length test decide it. */
  predicate SameFold(a: string, b: string) {
    |a| == |b| && forall i :: 0 <= i < |a| ==> LowerChar(a[i]) == LowerChar(b[i])
  }

  /** `strstr` for one character: its first position from `from` on, or -1. */
  function Index(s: string, from: nat, c: char): (r: int)
    ensures r == -1 || from <= r < |s|
    ensures r >= 0 ==> s[r] == c && forall i :: from <= i < r ==> s[i] != c
    ensures r == -1 ==> forall i :: from <= i < |s| ==> s[i] != c
    decreases |s| - from
  {
    if from >= |s| then -1 else if s[from] == c then from else Index(s, from + 1, c)
  }

  lemma IndexIs(s: string, from: nat, c: char, k: nat)
    requires from <= k < |s| && s[k] == c && forall i :: from <= i < k ==> s[i] != c
    ensures Index(s, from, c) == k
  {
  }

  /** A value by position and length; none; an error; or a quote that is never closed, for which the source
      computes with a null address. */
  datatype Result = Found(start: nat, length: nat) | Absent | NoValue | Unterminated

  /** The value behind the equals sign of a matching flag. */
  function ValueAt(s: string, equals: nat): Result
    requires equals < |s| && s[equals] == '='
  {
    var comma, quote := Index(s, equals, ','), Index(s, equals, '"');
    if comma == -1 && quote == -1 then Found(equals + 1, |s| - (equals + 1))
    else if quote != -1 && (comma == -1 || quote < comma) then
      var equote := Index(s, quote + 1, '"');
      if equote == -1 then Unterminated else Found(quote + 1, equote - (quote + 1))
    else Found(equals + 1, comma - (equals + 1))
  }

  datatype Step = Stop(result: Result) | Continue(pos: nat)

  /** Past a flag that does not match. */
  function Skip(s: string, pos: nat, equals: nat): (r: Step)
    requires pos <= equals < |s|
    ensures r.Continue? ==> r.pos > pos
  {
    var comma, quote := Index(s, pos, ','), Index(s, equals, '"');
    if comma == -1 && quote == -1 then Stop(Absent)
    else if quote != -1 && (comma == -1 || quote < comma) then
      var equote := Index(s, quote + 1, '"');
      if equote == -1 then Stop(Unterminated)
      else
        var next := Index(s, equote, ',');
        if next == -1 then Stop(Absent) else Continue(next + 1)
    else Continue(comma + 1)
  }

  /** The scan from one flag on. */
  function FlagFrom(s: string, flag: string, pos: nat): Result
    decreases |s| - pos
  {
    if pos >= |s| then Absent
    else
      var equals := Index(s, pos, '=');
      if equals == -1 then NoValue
      else if SameFold(flag, s[pos..equals]) then ValueAt(s, equals)
      else
        match Skip(s, pos, equals)
        case Stop(result) => result
        case Continue(next) => FlagFrom(s, flag, next)
  }

  /** `cf_find_flag` */
  function FindFlag(s: string, flag: string): Result {
    var colon := Index(s, 0, ':');
    if colon == -1 then Absent else FlagFrom(s, flag, colon + 1)
  }

  /** `cf_parse_interface`: the length of the interface at the front. */
  function InterfaceLength(s: string): nat {
    var colon := Index(s, 0, ':');
    if colon == -1 then |s| else colon
  }

  // ----- the loops -----

  method StrStr(s: string, from: nat, c: char) returns (r: int)
    ensures r == Index(s, from, c)
  {
    var i := from;
    while i < |s|
      invariant from <= i
      invariant Index(s, from, c) == Index(s, i, c)
      decreases |s| - i
    {
      if s[i] == c {
        return i;
      }
      i := i + 1;
    }
    return -1;
  }

  method ParseInterface(definition: string) returns (length: nat)
    ensures length == InterfaceLength(definition)
  {
    var colonpos := StrStr(definition, 0, ':');
    if colonpos == -1 {
      return |definition|;
    }
    return colonpos;
  }

  method ReadValue(definition: string, equals: nat) returns (r: Result)
    requires equals < |definition| && definition[equals] == '='
    ensures r == ValueAt(definition, equals)
  {
    var comma := StrStr(definition, equals, ',');
    var quote := StrStr(definition, equals, '"');
    if comma == -1 && quote == -1 {
      return Found(equals + 1, |definition| - (equals + 1));
    }
    if quote != -1 {
      if (comma != -1 && quote < comma) || comma == -1 {
        var equote := StrStr(definition, quote + 1, '"');
        if equote == -1 {
          return Unterminated;
        }
        return Found(quote + 1, equote - (quote + 1));
      }
    }
    return Found(equals + 1, comma - (equals + 1));
  }

  method SkipFlag(definition: string, flagpos: nat, equals: nat) returns (r: Step)
    requires flagpos <= equals < |definition|
    ensures r == Skip(definition, flagpos, equals)
  {
    var comma := StrStr(definition, flagpos, ',');
    var quote := StrStr(definition, equals, '"');
    if comma == -1 && quote == -1 {
      return Stop(Absent);
    }
    if quote != -1 {
      if (comma != -1 && quote < comma) || comma == -1 {
        var equote := StrStr(definition, quote + 1, '"');
        if equote == -1 {
          return Stop(Unterminated);
        }
        comma := StrStr(definition, equote, ',');
        if comma == -1 {
          return Stop(Absent);
        }
      }
    }
    return Continue(comma + 1);
  }

  method Find(flag: string, definition: string) returns (r: Result)
    ensures r == FindFlag(definition, flag)
  {
    hide SameFold, Skip, ValueAt;
    var colonpos := StrStr(definition, 0, ':');
    if colonpos == -1 {
      return Absent;
    }
    var flagpos: nat := colonpos + 1;
    while flagpos < |definition|
      invariant FindFlag(definition, flag) == FlagFrom(definition, flag, flagpos)
      decreases |definition| - flagpos
    {
      var equals := StrStr(definition, flagpos, '=');
      if equals == -1 {
        return NoValue;
      }
      if SameFold(flag, definition[flagpos..equals]) {
        r := ReadValue(definition, equals);
        return;
      }
      var step := SkipFlag(definition, flagpos, equals);
      if step.Stop? {
        return step.result;
      }
      flagpos := step.pos;
    }
    return Absent;
  }

  // ----- printed definitions -----

  datatype Flag = Flag(key: string, value: string, quoted: bool)

  function PrintValue(f: Flag): string {
    if f.quoted then "\"" + f.value + "\"" else f.value
  }

  function PrintFlag(f: Flag): string {
    f.key + "=" + PrintValue(f)
  }

  function PrintFlags(flags: seq<Flag>): string {
    if flags == [] then ""
    else if |flags| == 1 then PrintFlag(flags[0])
    else PrintFlag(flags[0]) + "," + PrintFlags(flags[1..])
  }

  function Print(interface: string, flags: seq<Flag>): string {
    interface + ":" + PrintFlags(flags)
  }

  ghost predicate Printable(f: Flag) {
    && '=' !in f.key && ',' !in f.key
    && (if f.quoted then '"' !in f.value else ',' !in f.value && '"' !in f.value)
  }

  /** The value of the first flag with this key, ignoring case. */
  function Lookup(flags: seq<Flag>, key: string): Option<string> {
    if flags == [] then None
    else if SameFold(key, flags[0].key) then Some(flags[0].value)
    else Lookup(flags[1..], key)
  }

  /** The result names the looked-up value, or is a plain absence. */
  ghost predicate Names(s: string, r: Result, value: Option<string>) {
    match value
    case None => r == Absent
    case Some(v) => r.Found? && r.start + r.length <= |s| && s[r.start..r.start + r.length] == v
  }

  /** One printed flag with what stands before and behind it. */
  ghost predicate At(s: string, pos: nat, f: Flag, rest: string) {
    && Printable(f) && pos <= |s| && s[pos..] == PrintFlag(f) + rest
    && (rest == "" || rest[0] == ',')
  }

  lemma EqualsAt(s: string, pos: nat, f: Flag, rest: string)
    requires At(s, pos, f, rest)
    ensures pos + |f.key| < |s| && Index(s, pos, '=') == pos + |f.key|
    ensures s[pos..pos + |f.key|] == f.key
    ensures s[pos + |f.key| + 1..] == PrintValue(f) + rest
  {
    var t := s[pos..];
    assert t[..|f.key|] == f.key && t[|f.key|] == '=' && t[|f.key| + 1..] == PrintValue(f) + rest;
    forall i | pos <= i < pos + |f.key|
      ensures s[i] == f.key[i - pos]
    {
      assert s[i] == t[i - pos];
    }
    assert s[pos + |f.key|] == t[|f.key|];
    IndexIs(s, pos, '=', pos + |f.key|);
  }

  /** Where the characters of the value and of the rest are. */
  lemma LayoutAt(s: string, pos: nat, f: Flag, rest: string)
    requires At(s, pos, f, rest)
    ensures var e, end := pos + |f.key|, |s| - |rest|;
      && e < |s| && s[e] == '=' && end == e + 1 + |PrintValue(f)|
      && (forall i :: pos <= i < e ==> s[i] == f.key[i - pos])
      && (forall i :: e < i < end ==> s[i] == PrintValue(f)[i - e - 1])
      && (rest != "" ==> s[end] == ',')
  {
    EqualsAt(s, pos, f, rest);
    var e := pos + |f.key|;
    var t := s[e + 1..];
    forall i | e < i < |s|
      ensures s[i] == t[i - e - 1]
    {
    }
    forall i | pos <= i < e
      ensures s[i] == f.key[i - pos]
    {
      assert s[pos..e][i - pos] == s[i];
    }
    if rest != "" {
      assert t[|PrintValue(f)|] == rest[0];
    }
  }

  lemma UnquotedAt(s: string, pos: nat, f: Flag, rest: string)
    requires At(s, pos, f, rest) && !f.quoted
    ensures var e, end := pos + |f.key|, |s| - |rest|;
      && e < |s| && s[e] == '=' && end >= e + 1
      && ValueAt(s, e) == Found(e + 1, |f.value|) && s[e + 1..e + 1 + |f.value|] == f.value
      && Skip(s, pos, e) == if rest == "" then Stop(Absent) else Continue(end + 1)
  {
    LayoutAt(s, pos, f, rest);
    var e, end := pos + |f.key|, |s| - |rest|;
    forall i | pos <= i < end
      ensures s[i] != ','
      ensures i >= e ==> s[i] != '"'
    {
      if i < e {
        assert f.key[i - pos] in f.key;
      } else if i > e {
        assert f.value[i - e - 1] in f.value;
      }
    }
    if rest != "" {
      IndexIs(s, e, ',', end);
      IndexIs(s, pos, ',', end);
    }
    assert s[e + 1..end] == f.value;
  }

  /** The quotes of a quoted value are where they were printed. */
  lemma QuotedLayout(s: string, pos: nat, f: Flag, rest: string)
    requires At(s, pos, f, rest) && f.quoted
    ensures var e, end := pos + |f.key|, |s| - |rest|;
      && s[e] == '=' && end == e + 3 + |f.value| <= |s| && (rest != "" ==> s[end] == ',')
      && s[e + 1] == '"' && s[end - 1] == '"' && s[e + 2..end - 1] == f.value
      && (forall i :: e + 1 < i < end - 1 ==> s[i] != '"')
      && (forall i :: pos <= i <= e + 1 ==> s[i] != ',')
  {
    hide Index, ValueAt, Skip, PrintFlag;
    LayoutAt(s, pos, f, rest);
    var e, end := pos + |f.key|, |s| - |rest|;
    var v := PrintValue(f);
    assert v[0] == '"' && v[|v| - 1] == '"';
    forall i | e + 1 < i < end - 1
      ensures s[i] == f.value[i - e - 2]
    {
      assert v[i - e - 1] == f.value[i - e - 2];
    }
    forall i | e + 1 < i < end - 1
      ensures s[i] != '"'
    {
      assert f.value[i - e - 2] in f.value;
    }
    forall i | pos <= i <= e + 1
      ensures s[i] != ','
    {
      if i < e {
        assert f.key[i - pos] in f.key;
      }
    }
  }

  lemma IndexLater(s: string, from: nat, c: char, k: nat)
    requires forall i :: from <= i <= k && i < |s| ==> s[i] != c
    ensures Index(s, from, c) == -1 || Index(s, from, c) > k
  {
  }

  lemma IndexBeyond(s: string, from: nat, c: char)
    requires from >= |s| - 1 && (from == |s| - 1 ==> s[from] != c)
    ensures Index(s, from, c) == -1
  {
  }

  /** What the scanner makes of a quoted value whose quotes are at quote and equote. */
  lemma QuotedScan(s: string, pos: nat, equals: nat, quote: nat, equote: nat)
    requires pos <= equals < quote < equote < |s| && s[equals] == '='
    requires Index(s, equals, '"') == quote && Index(s, quote + 1, '"') == equote
    requires Index(s, equals, ',') == -1 || Index(s, equals, ',') > quote
    requires Index(s, pos, ',') == -1 || Index(s, pos, ',') > quote
    ensures ValueAt(s, equals) == Found(quote + 1, equote - (quote + 1))
    ensures Skip(s, pos, equals)
         == if Index(s, equote, ',') == -1 then Stop(Absent) else Continue(Index(s, equote, ',') + 1)
  {
    hide Index;
  }

  lemma QuotedAt(s: string, pos: nat, f: Flag, rest: string)
    requires At(s, pos, f, rest) && f.quoted
    ensures var e, end := pos + |f.key|, |s| - |rest|;
      && e < |s| && s[e] == '=' && end == e + 3 + |f.value| <= |s|
      && ValueAt(s, e) == Found(e + 2, |f.value|) && s[e + 2..e + 2 + |f.value|] == f.value
      && Skip(s, pos, e) == if rest == "" then Stop(Absent) else Continue(end + 1)
  {
    hide At, Index, ValueAt, Skip;
    QuotedLayout(s, pos, f, rest);
    var e, end := pos + |f.key|, |s| - |rest|;
    IndexIs(s, e, '"', e + 1);
    IndexIs(s, e + 2, '"', end - 1);
    IndexLater(s, e, ',', e + 1);
    IndexLater(s, pos, ',', e + 1);
    QuotedScan(s, pos, e, e + 1, end - 1);
    if rest == "" {
      IndexBeyond(s, end - 1, ',');
    } else {
      IndexIs(s, end - 1, ',', end);
    }
  }

  /** One printed flag under the scanner: found if it matches, skipped to the next one otherwise. */
  lemma FlagAt(s: string, flag: string, pos: nat, f: Flag, rest: string)
    requires At(s, pos, f, rest)
    ensures SameFold(flag, f.key) ==> Names(s, FlagFrom(s, flag, pos), Some(f.value))
    ensures !SameFold(flag, f.key) ==>
      FlagFrom(s, flag, pos) == if rest == "" then Absent else FlagFrom(s, flag, |s| - |rest| + 1)
  {
    hide SameFold, ValueAt, Skip, Printable, PrintFlag, Index;
    EqualsAt(s, pos, f, rest);
    if f.quoted {
      QuotedAt(s, pos, f, rest);
    } else {
      UnquotedAt(s, pos, f, rest);
    }
  }

  lemma {:induction false} FlagsFrom(s: string, flag: string, pos: nat, flags: seq<Flag>)
    requires pos <= |s| && s[pos..] == PrintFlags(flags) && flags != []
    requires forall i :: 0 <= i < |flags| ==> Printable(flags[i])
    ensures Names(s, FlagFrom(s, flag, pos), Lookup(flags, flag))
    decreases |flags|
  {
    hide SameFold, FlagFrom, Printable, PrintFlag;
    var f, more := flags[0], flags[1..];
    var rest := if more == [] then "" else "," + PrintFlags(more);
    assert s[pos..] == PrintFlag(f) + rest;
    FlagAt(s, flag, pos, f, rest);
    if more != [] && !SameFold(flag, f.key) {
      var next := |s| - |rest| + 1;
      assert s[next..] == s[pos..][next - pos..] == PrintFlags(more);
      FlagsFrom(s, flag, next, more);
    } else if more == [] {
      assert Lookup(more, flag) == None;
    }
  }

  /** What is printed is found: the interface, and for every flag name the value of the first flag with that
      name, ignoring case, or a plain absence. */
  lemma PrintedIsFound(interface: string, flags: seq<Flag>, flag: string)
    requires ':' !in interface && forall i :: 0 <= i < |flags| ==> Printable(flags[i])
    ensures var s := Print(interface, flags);
      && InterfaceLength(s) == |interface| && s[..InterfaceLength(s)] == interface
      && Names(s, FindFlag(s, flag), Lookup(flags, flag))
  {
    hide FlagFrom, Lookup, Printable, PrintFlags;
    var s := Print(interface, flags);
    forall i | 0 <= i < |interface|
      ensures s[i] != ':'
    {
      assert s[i] == interface[i] && interface[i] in interface;
    }
    assert s[|interface|] == ':';
    IndexIs(s, 0, ':', |interface|);
    assert s[|interface| + 1..] == PrintFlags(flags);
    if flags == [] {
      NoFlags(s, flag);
    } else {
      FlagsFrom(s, flag, |interface| + 1, flags);
    }
  }

  lemma NoFlags(s: string, flag: string)
    ensures PrintFlags([]) == "" && Lookup([], flag) == None && FlagFrom(s, flag, |s|) == Absent
  {
  }

  /** Without a colon the whole definition is the interface and no flag is there. */
  lemma NoColon(s: string, flag: string)
    requires ':' !in s
    ensures InterfaceLength(s) == |s| && FindFlag(s, flag) == Absent
  {
    forall i | 0 <= i < |s|
      ensures s[i] != ':'
    {
      assert s[i] in s;
    }
  }

  // ----- which keys match -----

  /** The same text but for the case of letters. */
  ghost predicate SameButCase(a: string, b: string) {
    |a| == |b| && forall i :: 0 <= i < |a| ==> a[i] == b[i] || CasePair(a[i], b[i]) || CasePair(b[i], a[i])
  }

  lemma LowerCharIs(x: char, y: char)
    ensures LowerChar(x) == LowerChar(y) <==> x == y || CasePair(x, y) || CasePair(y, x)
  {
    hide CasePair;
    CasePairIs(x, y);
    CasePairIs(y, x);
  }

  lemma SameFoldIs(a: string, b: string)
    ensures SameFold(a, b) <==> SameButCase(a, b)
  {
    hide LowerChar, CasePair;
    forall i | 0 <= i < |a| && i < |b|
      ensures LowerChar(a[i]) == LowerChar(b[i]) <==> a[i] == b[i] || CasePair(a[i], b[i]) || CasePair(b[i], a[i])
    {
      LowerCharIs(a[i], b[i]);
    }
  }

  ghost predicate NoCapitals(s: string) {
    forall i, c :: 0 <= i < |s| ==> !CasePair(c, s[i])
  }

  lemma NoCapitalsMatch(a: string, b: string)
    requires NoCapitals(a) && NoCapitals(b)
    ensures SameFold(a, b) <==> a == b
  {
    hide SameFold, CasePair;
    SameFoldIs(a, b);
  }

  /** The value of the first flag with exactly this key. */
  function FirstWith(flags: seq<Flag>, key: string): Option<string> {
    if flags == [] then None else if flags[0].key == key then Some(flags[0].value) else FirstWith(flags[1..], key)
  }

  lemma {:induction false} LookupIsFirstWith(flags: seq<Flag>, flag: string)
    requires NoCapitals(flag) && forall i :: 0 <= i < |flags| ==> NoCapitals(flags[i].key)
    ensures Lookup(flags, flag) == FirstWith(flags, flag)
  {
    hide NoCapitals, SameFold;
    if flags != [] {
      NoCapitalsMatch(flag, flags[0].key);
      LookupIsFirstWith(flags[1..], flag);
    }
  }

  /** Without capitals it is the first flag of exactly that name whose value is found. */
  lemma PrintedIsFoundExactly(interface: string, flags: seq<Flag>, flag: string)
    requires ':' !in interface && forall i :: 0 <= i < |flags| ==> Printable(flags[i])
    requires NoCapitals(flag) && forall i :: 0 <= i < |flags| ==> NoCapitals(flags[i].key)
    ensures var s := Print(interface, flags); Names(s, FindFlag(s, flag), FirstWith(flags, flag))
  {
    hide FindFlag, Print, Lookup, FirstWith, NoCapitals;
    PrintedIsFound(interface, flags, flag);
    LookupIsFirstWith(flags, flag);
  }

  lemma FoldsAlike(a: string, b: string, key: string)
    requires SameButCase(a, b)
    ensures SameFold(a, key) <==> SameFold(b, key)
  {
    hide SameButCase;
    SameFoldIs(a, b);
  }

  /** The case of the flag asked for makes no difference, in any definition. */
  lemma {:induction false} FlagCase(s: string, flag: string, flag': string, pos: nat)
    requires SameButCase(flag, flag')
    ensures FlagFrom(s, flag, pos) == FlagFrom(s, flag', pos)
    decreases |s| - pos
  {
    hide SameButCase, SameFold, ValueAt;
    var equals := Index(s, pos, '=');
    if pos < |s| && equals != -1 {
      FoldsAlike(flag, flag', s[pos..equals]);
      var step := Skip(s, pos, equals);
      if step.Continue? {
        FlagCase(s, flag, flag', step.pos);
      }
    }
  }

  lemma CaseIsIgnored(s: string, flag: string, flag': string)
    requires SameButCase(flag, flag')
    ensures FindFlag(s, flag) == FindFlag(s, flag')
  {
    FlagCase(s, flag, flag', Index(s, 0, ':') + 1);
  }

  /** Nor does the case of the keys. */
  lemma KeyCaseIsIgnored(interface: string, flags: seq<Flag>, flags': seq<Flag>, flag: string)
    requires ':' !in interface && |flags| == |flags'| && forall i :: 0 <= i < |flags'| ==> Printable(flags'[i])
    requires forall i :: 0 <= i < |flags| ==> flags[i].value == flags'[i].value && SameButCase(flags[i].key, flags'[i].key)
    ensures var s := Print(interface, flags'); Names(s, FindFlag(s, flag), Lookup(flags, flag))
  {
    hide FindFlag, Print, Lookup, SameButCase, Printable;
    PrintedIsFound(interface, flags', flag);
    LookupAlike(flags, flags', flag);
  }

  lemma {:induction false} LookupAlike(flags: seq<Flag>, flags': seq<Flag>, flag: string)
    requires |flags| == |flags'|
    requires forall i :: 0 <= i < |flags| ==> flags[i].value == flags'[i].value && SameButCase(flags[i].key, flags'[i].key)
    ensures Lookup(flags, flag) == Lookup(flags', flag)
  {
    hide SameFold, SameButCase;
    if flags != [] {
      FoldSymmetric(flag, flags[0].key);
      FoldSymmetric(flag, flags'[0].key);
      FoldsAlike(flags[0].key, flags'[0].key, flag);
      LookupAlike(flags[1..], flags'[1..], flag);
    }
  }

  lemma FoldSymmetric(a: string, b: string)
    ensures SameFold(a, b) <==> SameFold(b, a)
  {
  }

  /** One definition written out. */
  lemma WrittenOut()
    ensures var s := "wlan0:type=x,name=\"y,z\"";
      InterfaceLength(s) == 5 && Names(s, FindFlag(s, "name"), Some("y,z")) && Names(s, FindFlag(s, "size"), None)
  {
    hide *;
    var flags := [Flag("type", "x", false), Flag("name", "y,z", true)];
    PrintsWrittenOut();
    LooksUpWrittenOut(flags);
    assert |"wlan0"| == 5;
    PrintedIsFound("wlan0", flags, "name");
    PrintedIsFound("wlan0", flags, "size");
  }

  lemma LooksUpWrittenOut(flags: seq<Flag>)
    requires flags == [Flag("type", "x", false), Flag("name", "y,z", true)]
    ensures Lookup(flags, "name") == Some("y,z") && Lookup(flags, "size") == None && ':' !in "wlan0"
    ensures forall i :: 0 <= i < |flags| ==> Printable(flags[i])
  {
    hide SameFold;
    LookupTwo(flags[0], flags[1], "name");
    LookupTwo(flags[0], flags[1], "size");
    DifferentStart("name", "type");
    DifferentStart("size", "type");
    DifferentStart("size", "name");
    SameFoldItself("name");
    assert flags == [flags[0], flags[1]];
  }

  lemma LookupTwo(a: Flag, b: Flag, key: string)
    ensures Lookup([a, b], key)
         == if SameFold(key, a.key) then Some(a.value) else if SameFold(key, b.key) then Some(b.value) else None
  {
    hide SameFold;
    assert [a, b][1..] == [b] && [b][1..] == [];
    assert Lookup([b], key) == if SameFold(key, b.key) then Some(b.value) else None;
  }

  lemma DifferentStart(a: string, b: string)
    requires a != "" && b != "" && LowerChar(a[0]) != LowerChar(b[0])
    ensures !SameFold(a, b)
  {
  }

  lemma SameFoldItself(a: string)
    ensures SameFold(a, a)
  {
  }

  lemma PrintsWrittenOut()
    ensures Print("wlan0", [Flag("type", "x", false), Flag("name", "y,z", true)]) == "wlan0:type=x,name=\"y,z\""
  {
    var flags := [Flag("type", "x", false), Flag("name", "y,z", true)];
    assert flags[1..] == [Flag("name", "y,z", true)];
  }
}
