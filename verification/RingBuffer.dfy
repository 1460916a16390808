/** The ring buffer of kismet/simple_ringbuf_c.c, built without USE_MMAP_RBUF: bytes wrap round an array, and a
    read that ends at the very end leaves startPos one past it. Every operation is proved against a bounded queue. */
module RingBuffer {
  import opened Common
  import Cycles

  /** Outside: the copy would have started past the end of the buffer, where C promises nothing. */
  datatype WriteResult = Taken(count: nat) | Outside

  function Min(a: nat, b: nat): nat {
    if a <= b then a else b
  }

  /** The len bytes from start on, going round the end of s. */
  function Window(s: seq<Byte>, start: nat, len: nat): (w: seq<Byte>)
    requires start <= |s| && len <= |s|
    ensures |w| == len
  {
    if start + len <= |s| then s[start..start + len] else s[start..] + s[..start + len - |s|]
  }

  lemma WindowTake(s: seq<Byte>, start: nat, len: nat, k: nat)
    requires start <= |s| && k <= len <= |s|
    ensures Window(s, start, len)[..k]
         == if start + k <= |s| then s[start..start + k] else s[start..] + s[..start + k - |s|]
  {
  }

  lemma WindowDrop(s: seq<Byte>, start: nat, len: nat, k: nat)
    requires start <= |s| && k <= len <= |s|
    ensures Window(s, Advanced(start, k, |s|), len - k) == Window(s, start, len)[k..]
  {
  }

  /** s with data copied over it from position at. */
  function Pasted(s: seq<Byte>, at: nat, data: seq<Byte>): (p: seq<Byte>)
    requires at + |data| <= |s|
    ensures |p| == |s|
  {
    s[..at] + data + s[at + |data|..]
  }

  lemma PasteAfter(s: seq<Byte>, start: nat, len: nat, data: seq<Byte>)
    requires start + len + |data| <= |s|
    ensures Window(Pasted(s, start + len, data), start, len + |data|) == Window(s, start, len) + data
  {
  }

  lemma PasteNothing(s: seq<Byte>, at: nat)
    requires at <= |s|
    ensures Pasted(s, at, []) == s
  {
  }

  /** Free room that lies before start: the queue already goes round the end. */
  lemma PasteBetween(s: seq<Byte>, start: nat, len: nat, data: seq<Byte>)
    requires start <= |s| <= start + len && len + |data| <= |s|
    ensures Window(Pasted(s, start + len - |s|, data), start, len + |data|) == Window(s, start, len) + data
  {
    var at := start + len - |s|;
    var p := Pasted(s, at, data);
    assert p[start..] == s[start..];
    if start + len + |data| == |s| {
      assert p[start..] + p[..at + |data|] == p[start..];
    }
    assert p[..at + |data|] == s[..at] + data;
  }

  /** Free room on both sides: the first part of the copy runs to the end of s, the second starts it. */
  lemma PasteAround(s: seq<Byte>, start: nat, len: nat, first: seq<Byte>, second: seq<Byte>)
    requires start + len + |first| == |s| && |second| <= start
    ensures Window(Pasted(Pasted(s, start + len, first), 0, second), start, len + |first| + |second|)
         == Window(s, start, len) + (first + second)
  {
    var p := Pasted(s, start + len, first);
    var q := Pasted(p, 0, second);
    PasteAfter(s, start, len, first);
    assert p[start..] == Window(s, start, len) + first;
    assert q[start..] == p[start..] && q[..|second|] == second;
    hide Pasted;
    assert Window(q, start, len + |first| + |second|) == q[start..] + q[..|second|];
  }

  /** Where reading count bytes moves the start of a buffer of size n. */
  function Advanced(start: nat, count: nat, n: nat): nat
    requires start <= n && count <= n
  {
    if start + count <= n then start + count else start + count - n
  }

  /** The start after so many bytes in all: it is one past the end, not 0, after each full round. */
  function StartAfter(consumed: nat, n: nat): (start: nat)
    requires n > 0
    ensures start <= n
  {
    if consumed == 0 then 0 else (consumed - 1) % n + 1
  }

  lemma StartAdvances(consumed: nat, count: nat, n: nat)
    requires 0 < n && count <= n
    ensures Advanced(StartAfter(consumed, n), count, n) == StartAfter(consumed + count, n)
  {
    if consumed != 0 && count != 0 {
      var q, t := Cycles.DivMod(consumed - 1, n);
      Cycles.ModIs(consumed - 1, n, q, t);
      Cycles.Distribute(q, 1, n);
      if t + 1 + count <= n {
        Cycles.ModIs(consumed + count - 1, n, q, t + count);
      } else {
        Cycles.ModIs(consumed + count - 1, n, q + 1, t + count - n);
      }
    } else if count != 0 {
      Cycles.ModIs(count - 1, n, 0, count - 1);
    }
  }

  /** It is one past the end exactly when something was consumed, in full rounds. */
  lemma StartAtEnd(consumed: nat, n: nat)
    requires n > 0
    ensures StartAfter(consumed, n) == n <==> consumed != 0 && consumed % n == 0
  {
    if consumed != 0 {
      var q, t := Cycles.DivMod(consumed - 1, n);
      Cycles.ModIs(consumed - 1, n, q, t);
      Cycles.Distribute(q, 1, n);
      if t + 1 == n {
        Cycles.ModIs(consumed, n, q + 1, 0);
      } else {
        Cycles.ModIs(consumed, n, q, t + 1);
      }
    }
  }

  function Wrapped(x: nat, n: nat): nat
    requires n > 0
  {
    x % n
  }

  /** The remainder of a sum of two positions is no subtraction, one, or two. */
  lemma WrapOnce(x: nat, n: nat)
    requires n > 0 && x <= 2 * n
    ensures Wrapped(x, n) == if x < n then x else if x < 2 * n then x - n else 0
  {
    Cycles.ModIs(x, n, if x < n then 0 else if x < 2 * n then 1 else 2, if x < n then x else if x < 2 * n then x - n else 0);
  }

  class SimpleRingbuf {
    const buffer: array<Byte>
    var startPos: nat
    var length: nat
    var midPeek: bool

    ghost predicate Valid()
      reads this
    {
      buffer.Length > 0 && startPos <= buffer.Length && length <= buffer.Length
    }

    /** The queued bytes, oldest first. */
    ghost function Contents(): (c: seq<Byte>)
      requires Valid()
      reads this, buffer
      ensures |c| == length
    {
      Window(buffer[..], startPos, length)
    }

    /** A write that fills the buffer exactly while startPos is one past the end. */
    ghost predicate Misplaces(count: nat)
      requires Valid()
      reads this
    {
      count > 0 && startPos == buffer.Length && length + count == buffer.Length
    }

    constructor (size: nat)
      requires size > 0
      ensures Valid() && fresh(buffer) && buffer.Length == size
      ensures Contents() == [] && !midPeek && startPos == 0
    {
      buffer := new Byte[size];
      startPos, length, midPeek := 0, 0, false;
    }

    function Available(): (room: nat)
      requires Valid()
      reads this
      ensures room + |Contents()| == buffer.Length
    {
      buffer.Length - length
    }

    method CopyTo(at: nat, data: seq<Byte>)
      requires at + |data| <= buffer.Length
      modifies buffer
      ensures buffer[..] == Pasted(old(buffer[..]), at, data)
    {
      forall i | 0 <= i < |data| {
        buffer[at + i] := data[i];
      }
    }

    /** All of data or none of it; in one corner the source copies to a place outside the buffer. */
    method Write(data: seq<Byte>) returns (r: WriteResult)
      requires Valid()
      modifies this`length, buffer
      ensures Valid()
      ensures r.Outside? <==> old(Misplaces(|data|))
      ensures r.Taken? ==> r.count == if |data| <= old(Available()) then |data| else 0
      ensures Contents() == if r.Taken? && |data| <= old(Available()) then old(Contents()) + data else old(Contents())
    {
      hide Window, Pasted, Wrapped;
      if Available() < |data| {
        return Taken(0);
      }
      var n := buffer.Length;
      WrapOnce(startPos + length, n);
      var copyStart := Wrapped(startPos + length, n);
      ghost var was := buffer[..];
      if copyStart + |data| < n {
        CopyTo(copyStart, data);
        if startPos + length < n {
          PasteAfter(was, startPos, length, data);
        } else if |data| == 0 {
          PasteNothing(was, copyStart);
        } else {
          PasteBetween(was, startPos, length, data);
        }
      } else {
        var chunkA := n - copyStart;
        if startPos + length + chunkA > n {
          return Outside;
        }
        CopyTo(startPos + length, data[..chunkA]);
        CopyTo(0, data[chunkA..]);
        PasteAround(was, startPos, length, data[..chunkA], data[chunkA..]);
        assert data == data[..chunkA] + data[chunkA..];
      }
      length := length + |data|;
      r := Taken(|data|);
    }

    /** Drop up to size bytes from the front and return them. */
    method Read(size: nat) returns (data: seq<Byte>)
      requires Valid()
      modifies this`startPos, this`length
      ensures Valid()
      ensures data == old(Contents())[..Min(size, old(length))]
      ensures Contents() == old(Contents())[Min(size, old(length))..]
      ensures startPos == Advanced(old(startPos), Min(size, old(length)), buffer.Length)
    {
      hide Window;
      if length == 0 {
        return [];
      }
      var opsize := Min(size, length);
      WindowTake(buffer[..], startPos, length, opsize);
      WindowDrop(buffer[..], startPos, length, opsize);
      if startPos + opsize <= buffer.Length {
        data := buffer[startPos..startPos + opsize];
        startPos := startPos + opsize;
      } else {
        var chunkB := opsize - (buffer.Length - startPos);
        data := buffer[startPos..] + buffer[..chunkB];
        startPos := chunkB;
      }
      length := length - opsize;
    }

    /** The first bytes without consuming them, once until PeekFree; size 0 asks for everything. */
    method Peek(size: nat) returns (data: seq<Byte>)
      requires Valid()
      modifies this`midPeek
      ensures Valid() && midPeek
      ensures data == if old(midPeek) then [] else Contents()[..Min(if size == 0 then buffer.Length else size, length)]
    {
      if midPeek {
        return [];
      }
      midPeek := true;
      if length == 0 {
        return [];
      }
      var opsize := Min(if size == 0 then buffer.Length else size, length);
      WindowTake(buffer[..], startPos, length, opsize);
      hide Window;
      if startPos + opsize <= buffer.Length {
        data := buffer[startPos..startPos + opsize];
      } else {
        data := buffer[startPos..] + buffer[..opsize - (buffer.Length - startPos)];
      }
    }

    method PeekFree()
      requires Valid()
      modifies this`midPeek
      ensures Valid() && !midPeek
    {
      midPeek := false;
    }
  }

}
