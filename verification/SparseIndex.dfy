/** The sparse index and lookup cache of kismet/adsb_icao.cc and kismet/bluetooth_ids.cc: some lines of a
    sorted file are indexed, a lookup seeks close to its key, scans forward and remembers the answer. */
module SparseIndex {
  import opened Common

  /** A line of the file as the code sees it. A listed line has a key and an answer (which may be that the
      entry is not usable); an unlisted one parses as a key but is skipped by lookups; a malformed one ends an
      aircraft lookup and is skipped by a Bluetooth one. */
  datatype Line<+V> =
    | Comment
    | Malformed
    | Unlisted(key: nat)
    | Listed(key: nat, value: Option<V>)

  predicate HasKey<V>(line: Line<V>) {
    line.Unlisted? || line.Listed?
  }

  /** Keys never decrease from line to line. */
  ghost predicate Sorted<V>(lines: seq<Line<V>>) {
    forall i, j :: 0 <= i < j < |lines| && HasKey(lines[i]) && HasKey(lines[j]) ==> lines[i].key <= lines[j].key
  }

  /** Sorted, and where malformed lines end a lookup without any. */
  ghost predicate WellFormed<V>(lines: seq<Line<V>>, strict: bool) {
    Sorted(lines) && (strict ==> forall i :: 0 <= i < |lines| ==> !lines[i].Malformed?)
  }

  /** A plain scan of the whole file: the answer of the first line listed under the key. */
  function FirstMatch<V>(lines: seq<Line<V>>, key: nat): Option<V> {
    if lines == [] then None
    else if lines[0].Listed? && lines[0].key == key then lines[0].value
    else FirstMatch(lines[1..], key)
  }

  datatype IndexPos = IndexPos(key: nat, pos: nat)

  /** Every index entry lies at or before a line with its key. */
  ghost predicate Indexes<V>(lines: seq<Line<V>>, vec: seq<IndexPos>) {
    forall x :: 0 <= x < |vec| ==> IndexesLine(lines, vec[x])
  }

  ghost predicate IndexesLine<V>(lines: seq<Line<V>>, entry: IndexPos) {
    exists q :: entry.pos <= q < |lines| && HasKey(lines[q]) && lines[q].key == entry.key
  }

  ghost predicate Placed<V>(lines: seq<Line<V>>, vec: seq<IndexPos>) {
    forall x :: 0 <= x < |vec| ==> vec[x].pos <= |lines|
  }

  /** The entries at the front of the index whose keys are smaller. */
  function Leading(vec: seq<IndexPos>, key: nat): (n: nat)
    ensures n <= |vec|
    ensures forall x :: 0 <= x < n ==> vec[x].key < key
  {
    if vec == [] || key <= vec[0].key then 0 else 1 + Leading(vec[1..], key)
  }

  /** The scan of a lookup, from the line it starts at. */
  function Scan<V>(lines: seq<Line<V>>, key: nat, strict: bool): Option<V> {
    if lines == [] then None
    else
      match lines[0]
      case Listed(k, value) =>
        if k == key then value else if k > key then None else Scan(lines[1..], key, strict)
      case Malformed => if strict then None else Scan(lines[1..], key, strict)
      case _ => Scan(lines[1..], key, strict)
  }

  /** A lookup in the file: it starts one entry before the last leading one. */
  ghost function Located<V>(lines: seq<Line<V>>, vec: seq<IndexPos>, key: nat, strict: bool): Option<V>
    requires Placed(lines, vec)
  {
    var n := Leading(vec, key);
    if n == 0 then None else Scan(lines[vec[if n > 1 then n - 2 else 0].pos..], key, strict)
  }

  lemma {:induction false} FirstMatchSkips<V>(lines: seq<Line<V>>, pos: nat, key: nat)
    requires pos <= |lines| && forall i :: 0 <= i < pos && lines[i].Listed? ==> lines[i].key != key
    ensures FirstMatch(lines, key) == FirstMatch(lines[pos..], key)
  {
    if pos == 0 {
      assert lines[0..] == lines;
    } else {
      FirstMatchSkips(lines[1..], pos - 1, key);
      assert lines[1..][pos - 1..] == lines[pos..];
    }
  }

  lemma FirstMatchNone<V>(lines: seq<Line<V>>, pos: nat, key: nat)
    requires pos <= |lines| && forall i :: pos <= i < |lines| && lines[i].Listed? ==> lines[i].key != key
    ensures FirstMatch(lines[pos..], key) == None
  {
    FirstMatchSkips(lines[pos..], |lines| - pos, key);
    assert lines[pos..][|lines| - pos..] == [];
  }

  /** Lines before an entry whose key is smaller hold only smaller keys. */
  lemma BeforeEntry<V>(lines: seq<Line<V>>, entry: IndexPos, key: nat)
    requires Sorted(lines) && IndexesLine(lines, entry) && entry.key < key
    ensures entry.pos <= |lines|
    ensures forall i :: 0 <= i < entry.pos && HasKey(lines[i]) ==> lines[i].key < key
  {
    var q :| entry.pos <= q < |lines| && HasKey(lines[q]) && lines[q].key == entry.key;
    forall i | 0 <= i < entry.pos && HasKey(lines[i])
      ensures lines[i].key < key
    {
      assert lines[i].key <= lines[q].key;
    }
  }

  // ----- building the index -----

  /** Lines between two indexed ones. */
  const STRIDE: int := 50

  /** The loop state of an indexing pass; `Closed` when the file was given up. */
  datatype Pass = Pass(vec: seq<IndexPos>, line: int, prevPos: nat) | Closed

  /** One line of `kis_adsb_icao::index`: a comment makes the counter go back and keeps the old position. */
  function IcaoLine<V>(p: Pass, i: nat, line: Line<V>): Pass {
    if p.Closed? then p
    else if line.Comment? then p.(line := p.line - 1)
    else if p.line % STRIDE == 0 then
      if !HasKey(line) then Closed
      else Pass(p.vec + [IndexPos(line.key, p.prevPos)], p.line + 1, i + 1)
    else Pass(p.vec, p.line + 1, i + 1)
  }

  /** One line of the Bluetooth indexing loops: a line that does not parse counts, unless it was due. */
  function BtLine<V>(p: Pass, i: nat, line: Line<V>): Pass {
    if p.Closed? then p
    else if p.line % STRIDE == 0 then
      if !HasKey(line) then p.(line := p.line - 1)
      else Pass(p.vec + [IndexPos(line.key, p.prevPos)], p.line + 1, i + 1)
    else Pass(p.vec, p.line + 1, i + 1)
  }

  function IndexIcao<V>(lines: seq<Line<V>>): Pass
    decreases |lines|
  {
    if lines == [] then Pass([], 0, 0)
    else
      var n := |lines| - 1;
      IcaoLine(IndexIcao(lines[..n]), n, lines[n])
  }

  function IndexBt<V>(lines: seq<Line<V>>): Pass
    decreases |lines|
  {
    if lines == [] then Pass([], 0, 0)
    else
      var n := |lines| - 1;
      BtLine(IndexBt(lines[..n]), n, lines[n])
  }

  ghost predicate PassOk<V>(lines: seq<Line<V>>, p: Pass) {
    p.Pass? ==> p.prevPos <= |lines| && Indexes(lines, p.vec) && Placed(lines, p.vec)
  }

  lemma LineKeepsPassOk<V>(lines: seq<Line<V>>, p: Pass)
    requires |lines| > 0 && PassOk(lines[..|lines| - 1], p)
    ensures PassOk(lines, IcaoLine(p, |lines| - 1, lines[|lines| - 1]))
    ensures PassOk(lines, BtLine(p, |lines| - 1, lines[|lines| - 1]))
  {
    var n := |lines| - 1;
    if p.Pass? {
      forall x | 0 <= x < |p.vec|
        ensures IndexesLine(lines, p.vec[x])
      {
        assert IndexesLine(lines[..n], p.vec[x]);
        var q :| p.vec[x].pos <= q < n && HasKey(lines[..n][q]) && lines[..n][q].key == p.vec[x].key;
        assert lines[q] == lines[..n][q];
      }
      if HasKey(lines[n]) {
        assert IndexesLine(lines, IndexPos(lines[n].key, p.prevPos));
      }
    }
  }

  /** Whatever lines the counter picks and wherever comments stand, the index is usable. */
  lemma {:induction false} IndexUsable<V>(lines: seq<Line<V>>)
    ensures PassOk(lines, IndexIcao(lines)) && PassOk(lines, IndexBt(lines))
    decreases |lines|
  {
    hide PassOk, IcaoLine, BtLine;
    if lines == [] {
      EmptyPassOk(lines);
    } else {
      IndexUsable(lines[..|lines| - 1]);
      LineKeepsPassOk(lines, IndexIcao(lines[..|lines| - 1]));
      LineKeepsPassOk(lines, IndexBt(lines[..|lines| - 1]));
    }
  }

  lemma EmptyPassOk<V>(lines: seq<Line<V>>)
    ensures PassOk(lines, Pass([], 0, 0))
  {
  }

  // ----- the file, its index and its cache -----

  class LineIndex<V> {
    const lines: seq<Line<V>>
    const strict: bool
    ghost const preloaded: map<nat, Option<V>>
    var open: bool
    var vec: seq<IndexPos>
    var cache: map<nat, Option<V>>

    ghost predicate Valid()
      reads this
    {
      && Placed(lines, vec) && Indexes(lines, vec)
      && (forall k :: k in preloaded ==> k in cache)
      && (forall k :: k in cache ==>
            cache[k] == if k in preloaded then preloaded[k] else Located(lines, vec, k, strict))
    }

    /** What every lookup of this key answers, now and later. */
    ghost function Expected(key: nat): Option<V>
      requires Valid()
      reads this
    {
      if !open then None else if key in preloaded then preloaded[key] else Located(lines, vec, key, strict)
    }

    /** The aircraft database. */
    constructor Icao(lines: seq<Line<V>>)
      ensures Valid() && strict && this.lines == lines && preloaded == map[]
      ensures open <==> IndexIcao(lines).Pass?
      ensures open ==> vec == IndexIcao(lines).vec
    {
      this.lines, strict := lines, true;
      preloaded := map[];
      open, vec, cache := true, [], map[];
      new;
      var line, prevPos, lastIcao := 0, 0, 0;
      for i := 0 to |lines|
        invariant open && strict && this.lines == lines && preloaded == map[] && cache == map[]
        invariant IndexIcao(lines[..i]) == Pass(vec, line, prevPos)
        invariant lastIcao == 0
      {
        assert lines[..i + 1][..i] == lines[..i];
        if lines[i].Comment? {
          line := line - 1;
          continue;
        }
        if line % STRIDE == 0 {
          // The order check compares with a key that is never updated, so only the field count can fail.
          if !HasKey(lines[i]) || lines[i].key < lastIcao {
            open, vec := false, [];
            IcaoClosed(lines, i + 1);
            return;
          }
          vec := vec + [IndexPos(lines[i].key, prevPos)];
        }
        prevPos := i + 1;
        line := line + 1;
      }
      assert lines[..|lines|] == lines;
      IndexUsable(lines);
    }

    /** The Bluetooth lists, with the entries of the configuration file in the cache. */
    constructor Bluetooth(lines: seq<Line<V>>, configured: map<nat, Option<V>>)
      ensures Valid() && !strict && this.lines == lines && preloaded == configured
      ensures open && IndexBt(lines).Pass? && vec == IndexBt(lines).vec
    {
      this.lines, strict := lines, false;
      preloaded := configured;
      open, vec, cache := true, [], configured;
      new;
      var line, prevPos := 0, 0;
      for i := 0 to |lines|
        invariant open && !strict && this.lines == lines && preloaded == cache == configured
        invariant IndexBt(lines[..i]) == Pass(vec, line, prevPos)
      {
        assert lines[..i + 1][..i] == lines[..i];
        if line % STRIDE == 0 {
          if !HasKey(lines[i]) {
            line := line - 1;
            continue;
          }
          vec := vec + [IndexPos(lines[i].key, prevPos)];
        }
        prevPos := i + 1;
        line := line + 1;
      }
      assert lines[..|lines|] == lines;
      IndexUsable(lines);
    }

    /** The seek: the last of the leading entries with smaller keys, or -1. */
    method Seek(key: nat) returns (matched: int)
      ensures matched == Leading(vec, key) - 1
    {
      matched := -1;
      assert vec[0..] == vec;
      for x := 0 to |vec|
        invariant matched == x - 1
        invariant Leading(vec, key) == x + Leading(vec[x..], key)
      {
        if key <= vec[x].key {
          break;
        }
        assert vec[x..][1..] == vec[x + 1..];
        matched := x;
      }
    }

    /** The scan of a lookup; an answer reached at the end of the file is not remembered. */
    method ScanFrom(start: nat, key: nat) returns (answer: Option<V>, remember: bool)
      requires start <= |lines|
      ensures answer == Scan(lines[start..], key, strict)
    {
      hide Scan;
      var i := start;
      while i < |lines|
        invariant i <= |lines| && Scan(lines[i..], key, strict) == Scan(lines[start..], key, strict)
      {
        ScanOne(lines, i, key, strict);
        if lines[i].Malformed? {
          if strict {
            return None, true;
          }
        } else if lines[i].Listed? {
          if lines[i].key == key {
            return lines[i].value, true;
          } else if lines[i].key > key {
            return None, true;
          }
        }
        i := i + 1;
      }
      ScanNothing(lines, i, key, strict);
      return None, false;
    }

    /** `lookup_icao`, `lookup_oid`, `lookup_manuf` */
    method Lookup(key: nat) returns (answer: Option<V>)
      requires Valid()
      modifies this`cache
      ensures Valid()
      ensures answer == Expected(key) && Expected(key) == old(Expected(key))
      ensures cache == old(cache) || cache == old(cache)[key := answer]
    {
      hide Scan, Indexes, Leading;
      if !open {
        return None;
      }
      if key in cache {
        return cache[key];
      }
      var matched := Seek(key);
      if matched < 0 {
        cache := cache[key := None];
        return None;
      }
      if matched > 0 {
        matched := matched - 1;
      }
      var remember: bool;
      answer, remember := ScanFrom(vec[matched].pos, key);
      if remember {
        cache := cache[key := answer];
      }
    }

    /** Any sequence of lookups, cold or warm: each gets the answer that depends on its key alone. */
    method LookupAll(keys: seq<nat>) returns (answers: seq<Option<V>>)
      requires Valid()
      modifies this`cache
      ensures Valid() && |answers| == |keys|
      ensures forall i :: 0 <= i < |keys| ==> answers[i] == old(Expected(keys[i]))
    {
      answers := [];
      for i := 0 to |keys|
        invariant Valid() && |answers| == i
        invariant forall k :: Expected(k) == old(Expected(k))
        invariant forall j :: 0 <= j < i ==> answers[j] == old(Expected(keys[j]))
      {
        var answer := Lookup(keys[i]);
        answers := answers + [answer];
      }
    }
  }

  lemma ScanOne<V>(lines: seq<Line<V>>, i: nat, key: nat, strict: bool)
    requires i < |lines|
    ensures Scan(lines[i..], key, strict) ==
      match lines[i]
      case Listed(k, value) =>
        if k == key then value else if k > key then None else Scan(lines[i + 1..], key, strict)
      case Malformed => if strict then None else Scan(lines[i + 1..], key, strict)
      case _ => Scan(lines[i + 1..], key, strict)
  {
    assert lines[i..][1..] == lines[i + 1..];
  }

  lemma ScanNothing<V>(lines: seq<Line<V>>, i: nat, key: nat, strict: bool)
    requires i == |lines|
    ensures Scan(lines[i..], key, strict) == None
  {
  }

  lemma SortedBeyond<V>(lines: seq<Line<V>>, i: nat, key: nat)
    requires Sorted(lines) && i < |lines| && lines[i].Listed? && lines[i].key > key
    ensures FirstMatch(lines[i..], key) == None
  {
    FirstMatchNone(lines, i, key);
  }

  /** In a well-formed file the early end of the scan loses nothing. */
  lemma {:induction false} ScanIsFirstMatch<V>(lines: seq<Line<V>>, i: nat, key: nat, strict: bool)
    requires WellFormed(lines, strict) && i <= |lines|
    ensures Scan(lines[i..], key, strict) == FirstMatch(lines[i..], key)
    decreases |lines| - i
  {
    if i < |lines| {
      ScanIsFirstMatch(lines, i + 1, key, strict);
      ScanOne(lines, i, key, strict);
      assert lines[i..][1..] == lines[i + 1..];
      if lines[i].Listed? && lines[i].key > key {
        SortedBeyond(lines, i, key);
      }
    }
  }

  /** Above the first indexed key a lookup in a well-formed file is a plain scan of the whole of it. */
  lemma LocatedIsFirstMatch<V>(lines: seq<Line<V>>, vec: seq<IndexPos>, key: nat, strict: bool)
    requires WellFormed(lines, strict) && Placed(lines, vec) && Indexes(lines, vec)
    ensures Located(lines, vec, key, strict) == if vec != [] && key > vec[0].key then FirstMatch(lines, key) else None
  {
    hide Scan, FirstMatch;
    var n := Leading(vec, key);
    if n > 0 {
      var entry := vec[if n > 1 then n - 2 else 0];
      assert IndexesLine(lines, entry);
      BeforeEntry(lines, entry, key);
      FirstMatchSkips(lines, entry.pos, key);
      ScanIsFirstMatch(lines, entry.pos, key, strict);
    }
  }

  /** The first line of its key and not answered with nothing. */
  ghost predicate Usable<V>(lines: seq<Line<V>>, i: nat) {
    i < |lines| && lines[i].Listed? && FirstMatch(lines, lines[i].key) != None
  }

  lemma {:induction false} MatchHasLine<V>(lines: seq<Line<V>>, key: nat) returns (i: nat)
    requires FirstMatch(lines, key) != None
    ensures i < |lines| && lines[i].Listed? && lines[i].key == key
  {
    if lines[0].Listed? && lines[0].key == key {
      i := 0;
    } else {
      i := MatchHasLine(lines[1..], key);
      i := i + 1;
    }
  }

  /** All lookups agree with the plain scan exactly when every usable record lies above the first indexed key. */
  lemma AllAgreeIff<V>(lines: seq<Line<V>>, vec: seq<IndexPos>, strict: bool)
    requires WellFormed(lines, strict) && Placed(lines, vec) && Indexes(lines, vec)
    ensures (forall key: nat :: Located(lines, vec, key, strict) == FirstMatch(lines, key))
       <==> (forall i: nat :: Usable(lines, i) ==> vec != [] && lines[i].key > vec[0].key)
  {
    hide Located, FirstMatch;
    forall key: nat
      ensures Located(lines, vec, key, strict) == if vec != [] && key > vec[0].key then FirstMatch(lines, key) else None
    {
      LocatedIsFirstMatch(lines, vec, key, strict);
    }
    if forall i: nat :: Usable(lines, i) ==> vec != [] && lines[i].key > vec[0].key {
      forall key: nat
        ensures Located(lines, vec, key, strict) == FirstMatch(lines, key)
      {
        if FirstMatch(lines, key) != None {
          var i := MatchHasLine(lines, key);
          assert Usable(lines, i);
        }
      }
    } else {
      var i: nat :| Usable(lines, i) && !(vec != [] && lines[i].key > vec[0].key);
      assert Located(lines, vec, lines[i].key, strict) == None;
    }
  }

  lemma {:induction false} IcaoClosed<V>(lines: seq<Line<V>>, i: nat)
    requires i <= |lines| && IndexIcao(lines[..i]).Closed?
    ensures IndexIcao(lines).Closed?
    decreases |lines| - i
  {
    if i == |lines| {
      assert lines[..i] == lines;
    } else {
      assert lines[..i + 1][..i] == lines[..i];
      IcaoClosed(lines, i + 1);
    }
  }

  // ----- which keys are never found -----

  /** c comment lines, then the given lines. */
  function WithHeader<V>(c: nat, lines: seq<Line<V>>): (r: seq<Line<V>>)
    ensures |r| == c + |lines|
    ensures forall i :: 0 <= i < c ==> r[i].Comment?
    ensures forall i :: 0 <= i < |lines| ==> r[c + i] == lines[i]
  {
    seq(c, _ => Comment) + lines
  }

  lemma HeaderLines<V>(c: nat, lines: seq<Line<V>>)
    requires forall i :: 0 <= i < |lines| ==> lines[i].Listed?
    ensures forall i :: 0 <= i < c + |lines| ==> !WithHeader(c, lines)[i].Malformed?
  {
  }

  lemma {:induction false} HeaderPass<V>(c: nat, lines: seq<Line<V>>, i: nat)
    requires i <= c
    ensures IndexIcao(WithHeader(c, lines)[..i]) == Pass([], -(i as int), 0)
  {
    if i != 0 {
      HeaderPass(c, lines, i - 1);
      assert WithHeader(c, lines)[..i][..i - 1] == WithHeader(c, lines)[..i - 1];
    }
  }

  lemma Due(c: nat, j: nat)
    requires j <= c % 50
    ensures (j - c) % STRIDE == 0 <==> j == c % 50
  {
  }

  lemma PrefixNext<V>(lines: seq<Line<V>>, i: nat)
    requires i < |lines|
    ensures IndexIcao(lines[..i + 1]) == IcaoLine(IndexIcao(lines[..i]), i, lines[i])
  {
    assert lines[..i + 1][..i] == lines[..i];
  }

  /** The counter starts below zero, so the first record it picks is number c % 50. */
  lemma {:induction false} FirstRecords<V>(c: nat, lines: seq<Line<V>>, j: nat)
    requires forall i :: 0 <= i < |lines| ==> lines[i].Listed?
    requires j <= |lines| && j <= c % 50
    ensures IndexIcao(WithHeader(c, lines)[..c + j]).Pass?
    ensures IndexIcao(WithHeader(c, lines)[..c + j]).vec == [] && IndexIcao(WithHeader(c, lines)[..c + j]).line == j - c
  {
    hide WithHeader, IndexIcao;
    if j == 0 {
      HeaderPass(c, lines, c);
    } else {
      FirstRecords(c, lines, j - 1);
      PrefixNext(WithHeader(c, lines), c + (j - 1));
      assert WithHeader(c, lines)[c + (j - 1)] == lines[j - 1];
      Due(c, j - 1);
    }
  }

  lemma {:induction false} VecGrows<V>(lines: seq<Line<V>>, i: nat)
    requires i <= |lines| && IndexIcao(lines).Pass?
    ensures IndexIcao(lines[..i]).Pass? && IndexIcao(lines[..i]).vec <= IndexIcao(lines).vec
    decreases |lines| - i
  {
    if i == |lines| {
      assert lines[..i] == lines;
    } else {
      VecGrows(lines, i + 1);
      assert lines[..i + 1][..i] == lines[..i];
    }
  }

  /** Only a malformed line closes the database. */
  lemma {:induction false} IndexOpens<V>(lines: seq<Line<V>>)
    requires forall i :: 0 <= i < |lines| ==> !lines[i].Malformed?
    ensures IndexIcao(lines).Pass?
    decreases |lines|
  {
    if lines != [] {
      IndexOpens(lines[..|lines| - 1]);
    }
  }

  /** Records so far less comments so far: what `line` counts. */
  function Counter<V>(lines: seq<Line<V>>): int {
    if lines == [] then 0 else Counter(lines[..|lines| - 1]) + if lines[|lines| - 1].Comment? then -1 else 1
  }

  /** The line behind the last record, where the next one is taken to start. */
  function AfterRecord<V>(lines: seq<Line<V>>): (p: nat)
    ensures p <= |lines|
  {
    if lines == [] then 0
    else if lines[|lines| - 1].Comment? then AfterRecord(lines[..|lines| - 1])
    else |lines|
  }

  /** The entries of the records at which the count is a multiple of fifty. */
  function DueEntries<V>(lines: seq<Line<V>>): seq<IndexPos> {
    if lines == [] then []
    else
      var before, last := lines[..|lines| - 1], lines[|lines| - 1];
      DueEntries(before) +
      if HasKey(last) && Counter(before) % 50 == 0 then [IndexPos(last.key, AfterRecord(before))] else []
  }

  /** The index of the aircraft database holds exactly those. */
  lemma {:induction false} IcaoEntries<V>(lines: seq<Line<V>>)
    requires IndexIcao(lines).Pass?
    ensures IndexIcao(lines) == Pass(DueEntries(lines), Counter(lines), AfterRecord(lines))
    decreases |lines|
  {
    if lines != [] {
      IcaoEntries(lines[..|lines| - 1]);
    }
  }

  /** With c comments and then records, the first entry is that of record number c % 50. */
  lemma FirstEntry<V>(c: nat, lines: seq<Line<V>>)
    requires forall i :: 0 <= i < |lines| ==> lines[i].Listed?
    requires c % 50 < |lines|
    ensures var p := IndexIcao(WithHeader(c, lines)); p.Pass? && p.vec != [] && p.vec[0].key == lines[c % 50].key
  {
    hide WithHeader, IndexIcao;
    HeaderLines(c, lines);
    var all, j := WithHeader(c, lines), c % 50;
    IndexOpens(all);
    FirstRecords(c, lines, j);
    PrefixNext(all, c + j);
    Due(c, j);
    VecGrows(all, c + j + 1);
    assert IndexIcao(all[..c + j]).vec == [] && all[c + j] == lines[j];
    assert IndexIcao(all[..c + j + 1]).vec == [IndexPos(lines[j].key, IndexIcao(all[..c + j]).prevPos)];
  }

  lemma HeaderSorted<V>(c: nat, lines: seq<Line<V>>)
    requires Sorted(lines) && forall i :: 0 <= i < |lines| ==> lines[i].Listed?
    ensures WellFormed(WithHeader(c, lines), true)
  {
    hide WithHeader;
    var all := WithHeader(c, lines);
    forall i | 0 <= i < c + |lines|
      ensures !all[i].Malformed?
      ensures HasKey(all[i]) ==> i >= c && all[i] == lines[i - c]
    {
      if i < c {
        assert all[i].Comment?;
      } else {
        assert all[c + (i - c)] == lines[i - c];
      }
    }
    forall i, j | 0 <= i < j < |all| && HasKey(all[i]) && HasKey(all[j])
      ensures all[i].key <= all[j].key
    {
      assert lines[i - c].key <= lines[j - c].key;
    }
  }

  /** So in the sorted database every key above that record's is looked up as by a plain scan, and no other is
      found: the records up to number c % 50 are out of reach. */
  lemma HeaderLookup<V>(c: nat, lines: seq<Line<V>>, key: nat)
    requires Sorted(lines) && forall i :: 0 <= i < |lines| ==> lines[i].Listed?
    requires c % 50 < |lines|
    ensures var all := WithHeader(c, lines);
      && IndexIcao(all).Pass? && Placed(all, IndexIcao(all).vec)
      && Located(all, IndexIcao(all).vec, key, true)
         == if key > lines[c % 50].key then FirstMatch(all, key) else None
  {
    hide WithHeader, IndexIcao, Located, FirstMatch, WellFormed;
    FirstEntry(c, lines);
    IndexUsable(WithHeader(c, lines));
    HeaderSorted(c, lines);
    LocatedIsFirstMatch(WithHeader(c, lines), IndexIcao(WithHeader(c, lines)).vec, key, true);
  }

  /** With no more records than that nothing is indexed, and nothing is found. */
  lemma FewRecords<V>(c: nat, lines: seq<Line<V>>, key: nat)
    requires forall i :: 0 <= i < |lines| ==> lines[i].Listed?
    requires |lines| <= c % 50
    ensures var all := WithHeader(c, lines);
      IndexIcao(all).Pass? && IndexIcao(all).vec == [] && Located(all, [], key, true) == None
  {
    hide WithHeader, IndexIcao;
    FirstRecords(c, lines, |lines|);
    assert WithHeader(c, lines)[..c + |lines|] == WithHeader(c, lines);
  }

  /** The same of the database object, before and after any lookups. */
  lemma HeaderAnswers<V>(index: LineIndex<V>, c: nat, lines: seq<Line<V>>, key: nat)
    requires index.Valid() && index.open && index.strict && index.preloaded == map[]
    requires index.lines == WithHeader(c, lines) && IndexIcao(index.lines).Pass? && index.vec == IndexIcao(index.lines).vec
    requires Sorted(lines) && forall i :: 0 <= i < |lines| ==> lines[i].Listed?
    requires c % 50 < |lines|
    ensures index.Expected(key) == if key > lines[c % 50].key then FirstMatch(index.lines, key) else None
  {
    hide WithHeader, IndexIcao, Located, FirstMatch;
    HeaderLookup(c, lines, key);
  }

  // ----- the Bluetooth index -----

  /** A list whose first line parses is indexed from there. */
  lemma {:induction false} BtFirstEntry<V>(lines: seq<Line<V>>)
    requires lines != [] && HasKey(lines[0])
    ensures IndexBt(lines).Pass? && IndexBt(lines).vec != [] && IndexBt(lines).vec[0] == IndexPos(lines[0].key, 0)
    decreases |lines|
  {
    if |lines| == 1 {
      assert lines[..0] == [];
    } else {
      BtFirstEntry(lines[..|lines| - 1]);
    }
  }

  /** If all lines parse, the entries are those of every fiftieth line. */
  lemma {:induction false} BtEntries<V>(lines: seq<Line<V>>)
    requires forall i :: 0 <= i < |lines| ==> HasKey(lines[i])
    ensures var p := IndexBt(lines);
      && p.Pass? && p.line == p.prevPos == |lines| && |p.vec| == (|lines| + 49) / 50
      && forall k :: 0 <= k < |p.vec| ==> 50 * k < |lines| && HasKey(lines[50 * k]) && p.vec[k] == IndexPos(lines[50 * k].key, 50 * k)
    decreases |lines|
  {
    if lines != [] {
      BtEntries(lines[..|lines| - 1]);
    }
  }

  /** Above the key of its first line, such a sorted list is looked up as by a plain scan, but for what was
      configured. */
  lemma BtAnswers<V>(index: LineIndex<V>, key: nat)
    requires index.Valid() && index.open && !index.strict
    requires IndexBt(index.lines).Pass? && index.vec == IndexBt(index.lines).vec
    requires Sorted(index.lines) && index.lines != [] && HasKey(index.lines[0])
    ensures index.Expected(key) ==
      if key in index.preloaded then index.preloaded[key]
      else if key > index.lines[0].key then FirstMatch(index.lines, key) else None
  {
    hide IndexBt, Located, FirstMatch;
    BtFirstEntry(index.lines);
    LocatedIsFirstMatch(index.lines, index.vec, key, false);
  }

  // ----- lines that do not parse -----

  /** A bad line before anything at or above the key ends an aircraft lookup with nothing, and is no obstacle to a
      Bluetooth one. */
  lemma {:induction false} BadLine<V>(before: seq<Line<V>>, after: seq<Line<V>>, key: nat)
    requires forall i :: 0 <= i < |before| ==> !before[i].Malformed? && (before[i].Listed? ==> before[i].key < key)
    ensures Scan(before + [Malformed] + after, key, true) == None
    ensures Scan(before + [Malformed] + after, key, false) == Scan(after, key, false)
  {
    var all := before + [Malformed] + after;
    if before == [] {
      assert all[1..] == after;
    } else {
      BadLine(before[1..], after, key);
      assert all[1..] == before[1..] + [Malformed] + after;
    }
  }
}
