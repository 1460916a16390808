/** The receiving side of the capture framework: frames cut out of the bytes that reads put in the ring buffer,
    at most one frame for each read. */
module Framing {
  import opened Common
  import opened RingBuffer

  const SIGNATURE: nat := 0xDECAFBAD
  const V2_SENTINEL: nat := 0xABCD
  const V3_SENTINEL: nat := 0xA9A9
  const TWO_32: nat := 0x1_0000_0000

  // Header sizes in bytes: the part all versions share, and the whole of versions 2 and 3.
  const COMMON_HEADER: nat := 12
  const V2_HEADER: nat := 48
  const V3_HEADER: nat := 20

  const RING_SIZE: nat := 64 * 1024
  const READ_SLOT: nat := 1024

  /** The size of a ring buffer. */
  type Size = n: nat | n > 0 witness 1

  // ----- Network byte order -----

  function Be16(s: seq<Byte>, at: nat): (x: nat)
    requires at + 2 <= |s|
    ensures x < 0x1_0000
  {
    (s[at] as nat) * 0x100 + s[at + 1] as nat
  }

  function Be32(s: seq<Byte>, at: nat): (x: nat)
    requires at + 4 <= |s|
    ensures x < TWO_32
  {
    Be16(s, at) * 0x1_0000 + Be16(s, at + 2)
  }

  function Put16(x: nat): (s: seq<Byte>)
    requires x < 0x1_0000
    ensures |s| == 2 && Be16(s, 0) == x
  {
    [x / 0x100, x % 0x100]
  }

  function Put32(x: nat): (s: seq<Byte>)
    requires x < TWO_32
    ensures |s| == 4 && Be32(s, 0) == x
  {
    Put16(x / 0x1_0000) + Put16(x % 0x1_0000)
  }

  lemma Be16Within(s: seq<Byte>, at: nat, part: seq<Byte>)
    requires |part| == 2 && at + 2 <= |s| && s[at..at + 2] == part
    ensures Be16(s, at) == Be16(part, 0)
  {
    assert s[at] == s[at..at + 2][0] && s[at + 1] == s[at..at + 2][1];
  }

  lemma Be32Within(s: seq<Byte>, at: nat, part: seq<Byte>)
    requires |part| == 4 && at + 4 <= |s| && s[at..at + 4] == part
    ensures Be32(s, at) == Be32(part, 0)
  {
    assert s[at] == s[at..at + 4][0] && s[at + 1] == s[at..at + 4][1];
    assert s[at + 2] == s[at..at + 4][2] && s[at + 3] == s[at..at + 4][3];
  }

  // ----- Frames as a sender lays them out -----

  type Word16 = x: int | 0 <= x < 0x1_0000
  type Word32 = x: int | 0 <= x < TWO_32

  /** Data whose frame has a size that 32 bits can hold. */
  type Payload = d: seq<Byte> | V3_HEADER + |d| < TWO_32 witness []

  datatype Frame = Frame(version: Word16, kind: Word16, code: Word16, seqno: Word32, data: Payload)

  datatype Message = Message(kind: nat, seqno: nat, data: seq<Byte>)

  /** A frame must be shorter than the ring buffer. */
  predicate Fits(f: Frame, size: Size) {
    V3_HEADER + |f.data| < size
  }

  function Header(f: Frame): (h: seq<Byte>)
    ensures |h| == V3_HEADER
  {
    Put32(SIGNATURE) + Put16(V3_SENTINEL) + Put16(f.version) + Put32(|f.data|) +
    Put16(f.kind) + Put16(f.code) + Put32(f.seqno)
  }

  function Encode(f: Frame): (e: seq<Byte>)
    ensures |e| == V3_HEADER + |f.data|
  {
    Header(f) + f.data
  }

  function Stream(frames: seq<Frame>): (s: seq<Byte>)
  {
    if frames == [] then [] else Stream(frames[..|frames| - 1]) + Encode(frames[|frames| - 1])
  }

  function Messages(frames: seq<Frame>): (m: seq<Message>)
    ensures |m| == |frames|
  {
    seq(|frames|, i requires 0 <= i < |frames| => Message(frames[i].kind, frames[i].seqno, frames[i].data))
  }

  // ----- What one call does to the queue -----

  /** Fatal is a negative return, LegacyPing the answer to a version 2 discovery packet. */
  datatype Outcome = Waiting | Fatal | LegacyPing | Dispatched(message: Message)

  datatype Handled = Handled(outcome: Outcome, consumed: nat, locked: bool)

  /** The checks repeated on a whole frame before it is dispatched. */
  function Content(frame: seq<Byte>, ping: bool): Outcome {
    if |frame| < COMMON_HEADER then Fatal
    else if Be32(frame, 0) != SIGNATURE then Fatal
    else if Be16(frame, 4) == V2_SENTINEL then if ping then LegacyPing else Fatal
    else if Be16(frame, 4) != V3_SENTINEL then Fatal
    else
      var packetSize := Be32(frame, 8);
      if |frame| < packetSize + V3_HEADER then Fatal
      else Dispatched(Message(Be16(frame, 12), Be32(frame, 16), frame[V3_HEADER..V3_HEADER + packetSize]))
  }

  /** The size of a whole frame, in 32 bits. */
  function Total(header: seq<Byte>, headerSize: nat): nat
    requires |header| == COMMON_HEADER
  {
    (Be32(header, 8) + headerSize) % TWO_32
  }

  /** One call on the queue c. ping says whether the command field of a version 2 header reads PING: the code
      looks at it before those bytes need to have arrived. A header left locked is one whose peek is never freed. */
  function Handle(c: seq<Byte>, locked: bool, size: Size, ping: bool): (h: Handled)
    ensures h.consumed <= |c|
  {
    if |c| < COMMON_HEADER then Handled(Waiting, 0, locked)
    else if locked then Handled(Waiting, 0, true)
    else
      var header := c[..COMMON_HEADER];
      if Be32(header, 0) != SIGNATURE then Handled(Fatal, 0, true)
      else if Be16(header, 4) == V2_SENTINEL then
        if ping then Handled(LegacyPing, Min(Total(header, V2_HEADER), |c|), false)
        else Handled(Fatal, 0, true)
      else if Be16(header, 4) != V3_SENTINEL then Handled(Fatal, 0, true)
      else HandleFrame(c, Total(header, V3_HEADER), size, ping)
  }

  /** The call once the header is known to be of version 3. */
  function HandleFrame(c: seq<Byte>, total: nat, size: Size, ping: bool): (h: Handled)
    ensures h.consumed <= |c|
  {
    if total >= size then Handled(Fatal, 0, false)
    else if |c| < total then Handled(Waiting, 0, false)
    else if total == 0 then Handled(Fatal, 0, true)
    else Handled(Content(c[..total], ping), total, false)
  }

  /** Everything a run of reads leaves behind; lost once the ring buffer has put bytes where they are not found. */
  datatype Rx =
    Rx(pending: seq<Byte>, locked: bool, consumed: seq<Byte>, messages: seq<Message>, faults: nat, lost: bool)

  datatype Chunk = Chunk(bytes: seq<Byte>, ping: bool)

  const START := Rx([], false, [], [], 0, false)

  /** The read the ring buffer misplaces: it fills the buffer exactly after full rounds of consumption. */
  predicate Misplaced(st: Rx, chunk: Chunk, size: Size) {
    chunk.bytes != [] && st.consumed != [] && |st.consumed| % size == 0 && |st.pending| + |chunk.bytes| == size
  }

  /** A read whose bytes are queued: then one call takes at most one frame. */
  function Take(st: Rx, chunk: Chunk, size: Size): Rx {
    var c := st.pending + chunk.bytes;
    var h := Handle(c, st.locked, size, chunk.ping);
    Rx(c[h.consumed..], h.locked, st.consumed + c[..h.consumed],
       st.messages + (if h.outcome.Dispatched? then [h.outcome.message] else []),
       st.faults + (if h.outcome.Fatal? then 1 else 0), st.lost)
  }

  lemma TakeIs(st: Rx, chunk: Chunk, size: Size)
    ensures
      var h := Handle(st.pending + chunk.bytes, st.locked, size, chunk.ping);
      Take(st, chunk, size) == Rx((st.pending + chunk.bytes)[h.consumed..], h.locked,
        st.consumed + (st.pending + chunk.bytes)[..h.consumed],
        st.messages + (if h.outcome.Dispatched? then [h.outcome.message] else []),
        st.faults + (if h.outcome.Fatal? then 1 else 0), st.lost)
  {
  }

  /** One read of the loop. */
  function Turn(st: Rx, chunk: Chunk, size: Size): Rx {
    if st.lost then st else if Misplaced(st, chunk, size) then st.(lost := true) else Take(st, chunk, size)
  }

  function Run(st: Rx, chunks: seq<Chunk>, size: Size): Rx
    decreases |chunks|
  {
    if chunks == [] then st else Turn(Run(st, chunks[..|chunks| - 1], size), chunks[|chunks| - 1], size)
  }

  function Received(chunks: seq<Chunk>): seq<Byte>
    decreases |chunks|
  {
    if chunks == [] then [] else Received(chunks[..|chunks| - 1]) + chunks[|chunks| - 1].bytes
  }

  /** Every read brings something, and no more than its slot and the room in the ring buffer allow. */
  predicate Roomy(st: Rx, chunks: seq<Chunk>, size: Size) {
    forall j :: 0 <= j < |chunks| ==> Fitting(Run(st, chunks[..j], size), chunks[j], size)
  }

  predicate Fitting(st: Rx, chunk: Chunk, size: Size) {
    0 < |chunk.bytes| <= READ_SLOT && |st.pending| + |chunk.bytes| <= size
  }

  // ----- The receiver itself -----

  class Receiver {
    const ring: SimpleRingbuf
    ghost var consumed: seq<Byte>
    ghost var messages: seq<Message>
    ghost var faults: nat
    ghost var lost: bool

    ghost predicate Valid()
      reads this, ring
    {
      ring.Valid() && ring.startPos == StartAfter(|consumed|, ring.buffer.Length)
    }

    ghost function View(): Rx
      requires ring.Valid()
      reads this, ring, ring.buffer
    {
      Rx(ring.Contents(), ring.midPeek, consumed, messages, faults, lost)
    }

    constructor ()
      ensures Valid() && fresh(ring) && fresh(ring.buffer)
      ensures ring.buffer.Length == 65536 && View() == START
    {
      ring := new SimpleRingbuf(RING_SIZE);
      consumed, messages, faults, lost := [], [], 0, false;
    }

    /** Look for a frame at the front of the ring buffer; take it, wait for the rest of it, or fail. */
    method HandleRingData(ping: bool) returns (outcome: Outcome)
      requires ring.Valid()
      modifies ring`midPeek, ring`startPos, ring`length
      ensures ring.Valid()
      ensures
        var h := Handle(old(ring.Contents()), old(ring.midPeek), ring.buffer.Length, ping);
        && outcome == h.outcome && ring.midPeek == h.locked
        && ring.Contents() == old(ring.Contents())[h.consumed..]
        && ring.startPos == Advanced(old(ring.startPos), h.consumed, ring.buffer.Length)
    {
      hide Be32, Be16, Content, Total, HandleFrame, Window;
      var available := ring.length;
      if available < COMMON_HEADER {
        return Waiting;
      }
      var header := ring.Peek(COMMON_HEADER);
      if |header| != COMMON_HEADER {
        return Waiting;
      }
      if Be32(header, 0) != SIGNATURE {
        return Fatal;
      }
      if Be16(header, 4) == V2_SENTINEL {
        if ping {
          ring.PeekFree();
          var _ := ring.Read(Total(header, V2_HEADER));
          return LegacyPing;
        }
        return Fatal;
      } else if Be16(header, 4) != V3_SENTINEL {
        return Fatal;
      }
      outcome := TakeFrame(Total(header, V3_HEADER), ping);
    }

    /** The end of that call: the peek of the header is freed and the frame, if it is all there, is taken. */
    method TakeFrame(total: nat, ping: bool) returns (outcome: Outcome)
      requires ring.Valid() && ring.midPeek && ring.length >= COMMON_HEADER
      modifies ring`midPeek, ring`startPos, ring`length
      ensures ring.Valid()
      ensures
        var h := HandleFrame(old(ring.Contents()), total, ring.buffer.Length, ping);
        && outcome == h.outcome && ring.midPeek == h.locked
        && ring.Contents() == old(ring.Contents())[h.consumed..]
        && ring.startPos == Advanced(old(ring.startPos), h.consumed, ring.buffer.Length)
    {
      hide Content, Window;
      ring.PeekFree();
      if total >= ring.buffer.Length {
        return Fatal;
      }
      if ring.length < total {
        return Waiting;
      }
      var frame := ring.Peek(total);
      if |frame| != total {
        return Fatal;
      }
      outcome := Content(frame, ping);
      ring.PeekFree();
      var _ := ring.Read(total);
    }

    ghost method Log(taken: seq<Byte>, outcome: Outcome)
      modifies this`consumed, this`messages, this`faults
      ensures consumed == old(consumed) + taken
      ensures messages == old(messages) + if outcome.Dispatched? then [outcome.message] else []
      ensures faults == old(faults) + if outcome.Fatal? then 1 else 0
    {
      consumed := consumed + taken;
      messages := messages + if outcome.Dispatched? then [outcome.message] else [];
      faults := faults + if outcome.Fatal? then 1 else 0;
    }

    /** One round of the read loop on the bytes the read returned. */
    method ReadChunk(bytes: seq<Byte>, ping: bool) returns (kept: bool)
      requires Valid() && !lost && Fitting(View(), Chunk(bytes, ping), ring.buffer.Length)
      modifies this, ring, ring.buffer
      ensures Valid() && View() == Turn(old(View()), Chunk(bytes, ping), ring.buffer.Length)
      ensures kept == !lost
    {
      hide Handle, Window, Take, StartAfter, Advanced;
      ghost var was := View();
      StartAtEnd(|consumed|, ring.buffer.Length);
      var r := ring.Write(bytes);
      if r.Outside? {
        lost := true;
        return false;
      }
      ghost var c := ring.Contents();
      assert c == was.pending + bytes;
      ghost var h := Handle(c, was.locked, ring.buffer.Length, ping);
      StartAdvances(|consumed|, h.consumed, ring.buffer.Length);
      var outcome := HandleRingData(ping);
      Log(c[..h.consumed], outcome);
      TakeIs(was, Chunk(bytes, ping), ring.buffer.Length);
      kept := true;
    }

    /** The read loop, over reads that never ask for more than there is room for. */
    method ReadLoop(chunks: seq<Chunk>) returns (kept: bool)
      requires Valid() && !lost && Roomy(View(), chunks, ring.buffer.Length)
      modifies this, ring, ring.buffer
      ensures Valid() && View() == Run(old(View()), chunks, ring.buffer.Length)
      ensures kept == !lost
    {
      hide Turn, Fitting, Window;
      ghost var was := View();
      for i := 0 to |chunks|
        invariant Valid() && !lost && View() == Run(was, chunks[..i], ring.buffer.Length)
      {
        assert chunks[..i + 1] == chunks[..i] + [chunks[i]];
        RunNext(was, chunks[..i], chunks[i], ring.buffer.Length);
        kept := ReadChunk(chunks[i].bytes, chunks[i].ping);
        if !kept {
          LostStays(was, chunks, i + 1, ring.buffer.Length);
          return;
        }
      }
      assert chunks[..|chunks|] == chunks;
      kept := true;
    }

    /** What a new receiver makes of a stream of frames, cut into reads in any way: all reads are kept unless one
        is misplaced, and then the frames are dispatched in order and no byte is lost. */
    method ReceiveStream(ghost frames: seq<Frame>, chunks: seq<Chunk>) returns (kept: bool)
      requires Valid() && View() == START && Roomy(START, chunks, ring.buffer.Length)
      requires Received(chunks) <= Stream(frames)
      modifies this, ring, ring.buffer
      ensures Valid() && View() == Run(START, chunks, ring.buffer.Length)
      ensures kept <==> forall j: nat :: j < |chunks| ==> !MisplacedAt(chunks, j, ring.buffer.Length)
      ensures kept ==> exists k :: 0 <= k <= |frames| && InOrder(View(), frames[..k], Received(chunks))
    {
      hide Run, Received, Stream, InOrder, MisplacedAt, Roomy, Window;
      kept := ReadLoop(chunks);
      LostIff(chunks, ring.buffer.Length);
      if kept {
        ghost var k := RunInOrder(frames, chunks, ring.buffer.Length);
      }
    }
  }

  /** Nothing changes once bytes are lost. */
  lemma {:induction false} LostStays(st: Rx, chunks: seq<Chunk>, j: nat, size: Size)
    requires j <= |chunks| && Run(st, chunks[..j], size).lost
    ensures Run(st, chunks, size) == Run(st, chunks[..j], size)
    decreases |chunks|
  {
    hide Turn;
    if j == |chunks| {
      assert chunks[..j] == chunks;
    } else {
      var before := chunks[..|chunks| - 1];
      assert before[..j] == chunks[..j];
      LostStays(st, before, j, size);
      TurnLost(Run(st, before, size), chunks[|chunks| - 1], size);
    }
  }

  lemma TurnLost(st: Rx, chunk: Chunk, size: Size)
    ensures Turn(st, chunk, size).lost <==> st.lost || Misplaced(st, chunk, size)
    ensures Turn(st, chunk, size).lost ==> Turn(st, chunk, size) == st.(lost := true)
    ensures !Turn(st, chunk, size).lost ==> Turn(st, chunk, size) == Take(st, chunk, size)
  {
  }

  /** Read j of the run is misplaced. */
  predicate MisplacedAt(chunks: seq<Chunk>, j: nat, size: Size)
    requires j < |chunks|
  {
    Misplaced(Run(START, chunks[..j], size), chunks[j], size)
  }

  lemma MisplacedBefore(chunks: seq<Chunk>, n: nat, j: nat, size: Size)
    requires j < n <= |chunks|
    ensures MisplacedAt(chunks[..n], j, size) <==> MisplacedAt(chunks, j, size)
  {
    assert chunks[..n][..j] == chunks[..j] && chunks[..n][j] == chunks[j];
  }

  lemma NothingLost(size: Size)
    ensures !Run(START, [], size).lost
  {
  }

  lemma LostLast(chunks: seq<Chunk>, size: Size)
    requires chunks != []
    ensures
      var n := |chunks| - 1;
      Run(START, chunks, size).lost <==> Run(START, chunks[..n], size).lost || MisplacedAt(chunks, n, size)
  {
    hide Turn, Misplaced;
    TurnLost(Run(START, chunks[..|chunks| - 1], size), chunks[|chunks| - 1], size);
  }

  /** Bytes are lost in a run exactly when one of its reads is misplaced: when it fills the ring buffer while what
      was consumed makes full rounds of it. */
  lemma {:induction false} LostIff(chunks: seq<Chunk>, size: Size)
    ensures Run(START, chunks, size).lost <==> exists j: nat :: j < |chunks| && MisplacedAt(chunks, j, size)
    decreases |chunks|
  {
    hide *;
    if chunks == [] {
      NothingLost(size);
    } else {
      var n := |chunks| - 1;
      LostIff(chunks[..n], size);
      LostLast(chunks, size);
      forall j: nat | j < n
        ensures MisplacedAt(chunks[..n], j, size) <==> MisplacedAt(chunks, j, size)
      {
        MisplacedBefore(chunks, n, j, size);
      }
    }
  }

  /** The read at which bytes are lost: up to it the run is one without loss. */
  lemma {:induction false} LostAt(chunks: seq<Chunk>, size: Size) returns (j: nat)
    requires Run(START, chunks, size).lost
    ensures j < |chunks| && !Run(START, chunks[..j], size).lost
    ensures Run(START, chunks, size) == Run(START, chunks[..j], size).(lost := true)
    decreases |chunks|
  {
    hide Turn;
    var n := |chunks| - 1;
    TurnLost(Run(START, chunks[..n], size), chunks[n], size);
    if Run(START, chunks[..n], size).lost {
      j := LostAt(chunks[..n], size);
      assert chunks[..n][..j] == chunks[..j];
    } else {
      j := n;
    }
  }

  // ----- Any chunking of a stream of frames -----

  lemma {:induction false} StreamJoin(a: seq<Frame>, b: seq<Frame>)
    ensures Stream(a + b) == Stream(a) + Stream(b)
    decreases |b|
  {
    hide Encode;
    if b == [] {
      assert a + b == a;
    } else {
      var rest, last := b[..|b| - 1], b[|b| - 1];
      StreamJoin(a, rest);
      assert (a + b)[..|a + b| - 1] == a + rest;
      assert Stream(a + b) == Stream(a + rest) + Encode(last);
    }
  }

  lemma StreamAround(before: seq<Frame>, f: Frame, after: seq<Frame>)
    ensures Stream(before + [f]) == Stream(before) + Encode(f)
    ensures Stream(before + [f] + after) == Stream(before) + (Encode(f) + Stream(after))
  {
    hide Encode;
    assert (before + [f])[..|before|] == before;
    StreamJoin(before + [f], after);
    hide Stream;
    assert Stream(before) + Encode(f) + Stream(after) == Stream(before) + (Encode(f) + Stream(after));
  }

  lemma Around<T>(s: seq<T>, k: nat)
    requires k < |s|
    ensures s == s[..k] + [s[k]] + s[k + 1..] && s[..k + 1] == s[..k] + [s[k]]
  {
  }

  /** The fields of a header, read back from bytes that agree with an encoded frame as far as both go. */
  lemma HeaderReads(f: Frame, c: seq<Byte>)
    requires |c| >= COMMON_HEADER
    requires c <= Encode(f) || Encode(f) <= c
    ensures Be32(c, 0) == SIGNATURE && Be16(c, 4) == V3_SENTINEL && Be32(c, 8) == |f.data|
  {
    hide Put16, Put32, Be16, Be32;
    var h := Header(f);
    assert c[..COMMON_HEADER] == h[..COMMON_HEADER];
    assert c[0..4] == c[..COMMON_HEADER][0..4] == Put32(SIGNATURE);
    assert c[4..6] == c[..COMMON_HEADER][4..6] == Put16(V3_SENTINEL);
    assert c[8..12] == c[..COMMON_HEADER][8..12] == Put32(|f.data|);
    Be32Within(c, 0, Put32(SIGNATURE));
    Be16Within(c, 4, Put16(V3_SENTINEL));
    Be32Within(c, 8, Put32(|f.data|));
  }

  /** A whole encoded frame passes every check and gives its own type, sequence number and data back. */
  lemma ContentReads(f: Frame, ping: bool)
    ensures Content(Encode(f), ping) == Dispatched(Message(f.kind, f.seqno, f.data))
  {
    hide Put16, Put32, Be16, Be32;
    var e := Encode(f);
    HeaderReads(f, e);
    assert e[12..14] == Put16(f.kind);
    assert e[16..20] == Put32(f.seqno);
    Be16Within(e, 12, Put16(f.kind));
    Be32Within(e, 16, Put32(f.seqno));
    hide Header;
    assert e[V3_HEADER..] == f.data;
    assert e[V3_HEADER..V3_HEADER + |f.data|] == e[V3_HEADER..];
  }

  /** What a call does with a frame at the front of the queue: wait, take it whole, or refuse its size. */
  lemma FrontFrame(f: Frame, c: seq<Byte>, size: Size, ping: bool)
    requires c <= Encode(f) || Encode(f) <= c
    ensures Handle(c, false, size, ping) ==
      if |c| < COMMON_HEADER then Handled(Waiting, 0, false)
      else if !Fits(f, size) then Handled(Fatal, 0, false)
      else if |c| < |Encode(f)| then Handled(Waiting, 0, false)
      else Handled(Dispatched(Message(f.kind, f.seqno, f.data)), |Encode(f)|, false)
  {
    hide Be16, Be32, Encode, Content, Total;
    if |c| >= COMMON_HEADER {
      FrontHeader(f, c);
      if |Encode(f)| <= |c| {
        ContentReads(f, ping);
        assert c[..|Encode(f)|] == Encode(f);
      }
    }
  }

  lemma FrontHeader(f: Frame, c: seq<Byte>)
    requires |c| >= COMMON_HEADER
    requires c <= Encode(f) || Encode(f) <= c
    ensures Be32(c[..COMMON_HEADER], 0) == SIGNATURE && Be16(c[..COMMON_HEADER], 4) == V3_SENTINEL
    ensures Total(c[..COMMON_HEADER], V3_HEADER) == |Encode(f)|
  {
    hide Be16, Be32, Encode;
    var header := c[..COMMON_HEADER];
    assert header <= Encode(f);
    HeaderReads(f, header);
  }

  predicate AllFit(frames: seq<Frame>, size: Size) {
    forall i :: 0 <= i < |frames| ==> Fits(frames[i], size)
  }

  /** The frames done are the ones dispatched, in order; their bytes are consumed and the rest is queued. */
  ghost predicate InOrder(st: Rx, done: seq<Frame>, received: seq<Byte>) {
    && !st.lost && !st.locked
    && st.messages == Messages(done)
    && st.consumed == Stream(done)
    && st.consumed + st.pending == received
  }

  lemma PrefixAfter(a: seq<Byte>, c: seq<Byte>, b: seq<Byte>)
    requires a + c <= a + b
    ensures c <= b
  {
    assert c == (a + c)[|a|..] && b == (a + b)[|a|..];
  }

  lemma PrefixOfSum(c: seq<Byte>, a: seq<Byte>, b: seq<Byte>)
    requires c <= a + b
    ensures c <= a || a <= c
  {
    if |c| <= |a| {
      assert c == (a + b)[..|c|] == a[..|c|];
    } else {
      assert a == (a + b)[..|a|] == c[..|a|];
    }
  }

  /** After a read the queue starts with the first frame not yet dispatched. */
  lemma QueueFront(consumed: seq<Byte>, c: seq<Byte>, before: seq<Frame>, f: Frame, after: seq<Frame>)
    requires consumed == Stream(before) && consumed + c <= Stream(before + [f] + after)
    ensures c <= Encode(f) || Encode(f) <= c
  {
    hide Encode, Stream;
    StreamAround(before, f, after);
    PrefixAfter(consumed, c, Encode(f) + Stream(after));
    PrefixOfSum(c, Encode(f), Stream(after));
  }

  lemma MessagesNext(before: seq<Frame>, f: Frame)
    ensures Messages(before + [f]) == Messages(before) + [Message(f.kind, f.seqno, f.data)]
  {
  }

  /** One read of any size, when f is the first frame not yet dispatched. */
  lemma TurnTakes(st: Rx, chunk: Chunk, before: seq<Frame>, f: Frame, after: seq<Frame>, size: Size)
    requires !st.locked && st.consumed == Stream(before) && st.messages == Messages(before)
    requires st.consumed + (st.pending + chunk.bytes) <= Stream(before + [f] + after)
    ensures
      var next, c := Take(st, chunk, size), st.pending + chunk.bytes;
      var taken := Fits(f, size) && |Encode(f)| <= |c|;
      && !next.locked && next.lost == st.lost
      && next.consumed + next.pending == st.consumed + c
      && next.messages == Messages(if taken then before + [f] else before)
      && next.consumed == Stream(if taken then before + [f] else before)
      && next.faults == st.faults + if !Fits(f, size) && COMMON_HEADER <= |c| then 1 else 0
  {
    hide Encode, Handle, Stream, Messages;
    var c := st.pending + chunk.bytes;
    QueueFront(st.consumed, c, before, f, after);
    FrontFrame(f, c, size, chunk.ping);
    MessagesNext(before, f);
    StreamAround(before, f, after);
    var h := Handle(c, false, size, chunk.ping);
    Regroup(st.consumed, c, h.consumed);
    if h.outcome.Dispatched? {
      assert c[..|Encode(f)|] == Encode(f);
    } else {
      assert c[..0] == [] && st.consumed + [] == st.consumed;
    }
  }

  lemma Regroup(a: seq<Byte>, c: seq<Byte>, n: nat)
    requires n <= |c|
    ensures (a + c[..n]) + c[n..] == a + c
  {
  }

  /** The frame a read dispatches: the next one, if it fits and all of it is among the n bytes received. */
  ghost predicate Dispatches(done: seq<Frame>, rest: seq<Frame>, n: nat, size: Size) {
    rest != [] && Fits(rest[0], size) && |Stream(done)| + |Encode(rest[0])| <= n
  }

  /** A read fails on a frame that does not fit as soon as the header is there. */
  ghost predicate Refuses(done: seq<Frame>, rest: seq<Frame>, n: nat, size: Size) {
    rest != [] && !Fits(rest[0], size) && |Stream(done)| + COMMON_HEADER <= n
  }

  /** A read of any size keeps the order, and this is exactly when it dispatches a frame or fails. */
  lemma TurnInOrder(st: Rx, done: seq<Frame>, rest: seq<Frame>, received: seq<Byte>, chunk: Chunk, size: Size)
    requires InOrder(st, done, received) && received + chunk.bytes <= Stream(done + rest)
    requires !Misplaced(st, chunk, size)
    ensures
      var next, n := Turn(st, chunk, size), |received + chunk.bytes|;
      && InOrder(next, if Dispatches(done, rest, n, size) then done + [rest[0]] else done, received + chunk.bytes)
      && next.faults == st.faults + if Refuses(done, rest, n, size) then 1 else 0
  {
    hide Encode, Take, Stream, Messages, Misplaced;
    var c := st.pending + chunk.bytes;
    assert received + chunk.bytes == st.consumed + c;
    if rest != [] {
      assert done + rest == done + [rest[0]] + rest[1..];
      TurnTakes(st, chunk, done, rest[0], rest[1..], size);
    } else {
      assert done + rest == done;
      assert |c| == 0;
      EmptyWaits(st, chunk, size);
    }
  }

  lemma EmptyWaits(st: Rx, chunk: Chunk, size: Size)
    requires !st.locked && st.pending + chunk.bytes == []
    ensures Take(st, chunk, size) == st
  {
  }

  lemma RunNext(st: Rx, chunks: seq<Chunk>, chunk: Chunk, size: Size)
    ensures Run(st, chunks + [chunk], size) == Turn(Run(st, chunks, size), chunk, size)
    ensures Received(chunks + [chunk]) == Received(chunks) + chunk.bytes
  {
    hide Turn;
    assert (chunks + [chunk])[..|chunks|] == chunks;
  }

  lemma PrefixTrans(a: seq<Byte>, b: seq<Byte>, s: seq<Byte>)
    requires a + b <= s
    ensures a <= s
  {
    assert a == (a + b)[..|a|] == s[..|a|];
  }

  /** However a stream of frames is cut into reads, what is dispatched is its first k frames, in order; every
      byte is consumed or queued; nothing passes a frame that does not fit, and no read fails when all fit. This
      supposes that the ring buffer has misplaced no read. */
  lemma {:induction false} RunInOrder(frames: seq<Frame>, chunks: seq<Chunk>, size: Size) returns (k: nat)
    requires Received(chunks) <= Stream(frames) && !Run(START, chunks, size).lost
    ensures k <= |frames| && InOrder(Run(START, chunks, size), frames[..k], Received(chunks))
    ensures AllFit(frames[..k], size)
    ensures AllFit(frames, size) ==> Run(START, chunks, size).faults == 0
    decreases |chunks|
  {
    hide Turn, InOrder, AllFit, Stream;
    if chunks == [] {
      k := 0;
      StartInOrder(size);
      assert frames[..0] == [];
    } else {
      var before, chunk := chunks[..|chunks| - 1], chunks[|chunks| - 1];
      assert chunks == before + [chunk];
      RunNext(START, before, chunk, size);
      TurnLost(Run(START, before, size), chunk, size);
      PrefixTrans(Received(before), chunk.bytes, Stream(frames));
      var j := RunInOrder(frames, before, size);
      k := NextDone(Run(START, before, size), frames, j, Received(before), chunk, size);
    }
  }

  lemma StartInOrder(size: Size)
    ensures InOrder(START, [], []) && AllFit([], size)
  {
    assert Messages([]) == [];
  }

  /** The number of frames done after one more read. */
  lemma NextDone(st: Rx, frames: seq<Frame>, j: nat, received: seq<Byte>, chunk: Chunk, size: Size) returns (k: nat)
    requires j <= |frames| && InOrder(st, frames[..j], received) && received + chunk.bytes <= Stream(frames)
    requires !Turn(st, chunk, size).lost
    ensures k == if Dispatches(frames[..j], frames[j..], |received + chunk.bytes|, size) then j + 1 else j
    ensures k <= |frames| && InOrder(Turn(st, chunk, size), frames[..k], received + chunk.bytes)
    ensures AllFit(frames[..j], size) ==> AllFit(frames[..k], size)
    ensures AllFit(frames, size) ==> Turn(st, chunk, size).faults == st.faults
  {
    hide Turn, InOrder, Fits, Encode, Stream;
    var rest := frames[j..];
    assert frames == frames[..j] + rest;
    TurnLost(st, chunk, size);
    TurnInOrder(st, frames[..j], rest, received, chunk, size);
    k := j;
    if Dispatches(frames[..j], rest, |received + chunk.bytes|, size) {
      k := j + 1;
      Around(frames, j);
    }
  }

  // ----- How far dispatching lags behind -----

  /** The number of frames complete in the first n bytes of their stream. */
  ghost function Complete(frames: seq<Frame>, n: nat): (k: nat)
    ensures k <= |frames|
    decreases |frames|
  {
    if |Stream(frames)| <= n then |frames| else Complete(frames[..|frames| - 1], n)
  }

  lemma {:induction false} CompleteIs(frames: seq<Frame>, n: nat, k: nat)
    requires k <= |frames|
    ensures k <= Complete(frames, n) <==> |Stream(frames[..k])| <= n
    decreases |frames|
  {
    if k == |frames| {
      assert frames[..k] == frames;
    } else {
      hide Stream, Encode;
      StreamPrefix(frames, k);
      var shorter := frames[..|frames| - 1];
      assert shorter[..k] == frames[..k];
      CompleteIs(shorter, n, k);
    }
  }

  lemma StreamPrefix(frames: seq<Frame>, k: nat)
    requires k <= |frames|
    ensures |Stream(frames[..k])| <= |Stream(frames)|
  {
    hide Stream;
    assert frames == frames[..k] + frames[k..];
    StreamJoin(frames[..k], frames[k..]);
  }

  ghost function Behind(frames: seq<Frame>, chunks: seq<Chunk>, size: Size): int {
    Complete(frames, |Received(chunks)|) - |Run(START, chunks, size).messages|
  }

  /** Frames are dispatched one for each read: of those waiting and those completed, all but one stay behind. */
  lemma OnePerRead(frames: seq<Frame>, chunks: seq<Chunk>, chunk: Chunk, size: Size)
    requires AllFit(frames, size) && Received(chunks + [chunk]) <= Stream(frames)
    requires !Run(START, chunks + [chunk], size).lost
    ensures
      var completed := Complete(frames, |Received(chunks + [chunk])|) - Complete(frames, |Received(chunks)|);
      var due := Behind(frames, chunks, size) + completed;
      0 <= Behind(frames, chunks, size) <= due
      && Behind(frames, chunks + [chunk], size) == if due == 0 then 0 else due - 1
  {
    hide Turn, Fits, Complete, Stream, Encode, Run, Received;
    RunNext(START, chunks, chunk, size);
    TurnLost(Run(START, chunks, size), chunk, size);
    PrefixTrans(Received(chunks), chunk.bytes, Stream(frames));
    var j := RunInOrder(frames, chunks, size);
    var k := NextDone(Run(START, chunks, size), frames, j, Received(chunks), chunk, size);
    var n, m := |Received(chunks)|, |Received(chunks + [chunk])|;
    CompleteIs(frames, n, j);
    CompleteIs(frames, m, j);
    CompleteIs(frames, n, Complete(frames, n));
    CompleteIs(frames, m, Complete(frames, n));
    if j < |frames| {
      Around(frames, j);
      StreamAround(frames[..j], frames[j], []);
      CompleteIs(frames, m, j + 1);
    }
  }

  ghost function Completed(frames: seq<Frame>, chunks: seq<Chunk>): nat {
    Complete(frames, |Received(chunks)|)
  }

  /** Every complete frame is dispatched after every read just when no read completes two frames. */
  lemma {:induction false} CaughtUpIff(frames: seq<Frame>, chunks: seq<Chunk>, size: Size)
    requires AllFit(frames, size) && Received(chunks) <= Stream(frames) && !Run(START, chunks, size).lost
    ensures (forall j :: 0 <= j <= |chunks| ==> Behind(frames, chunks[..j], size) == 0)
       <==> (forall j :: 0 < j <= |chunks| ==> Completed(frames, chunks[..j]) <= Completed(frames, chunks[..j - 1]) + 1)
    decreases |chunks|
  {
    hide Turn, AllFit, Stream, Received, Run, Complete, Behind;
    if chunks == [] {
      assert chunks[..0] == [];
      NothingBehind(frames, size);
    } else {
      var before, chunk := chunks[..|chunks| - 1], chunks[|chunks| - 1];
      assert chunks == before + [chunk] && chunks[..|chunks|] == chunks;
      RunNext(START, before, chunk, size);
      TurnLost(Run(START, before, size), chunk, size);
      PrefixTrans(Received(before), chunk.bytes, Stream(frames));
      assert forall j :: 0 <= j <= |before| ==> before[..j] == chunks[..j];
      CaughtUpIff(frames, before, size);
      OnePerRead(frames, before, chunk, size);
      assert chunks[..|before|] == before;
    }
  }

  lemma NothingBehind(frames: seq<Frame>, size: Size)
    ensures Behind(frames, [], size) == 0
  {
    var k := Complete(frames, 0);
    CompleteIs(frames, 0, k);
    StreamGrows(frames[..k]);
  }

  lemma {:induction false} StreamGrows(frames: seq<Frame>)
    ensures |Stream(frames)| >= |frames|
    decreases |frames|
  {
    if frames != [] {
      StreamGrows(frames[..|frames| - 1]);
    }
  }

  /** A read that brings two frames leaves the second one undispatched until another read. */
  lemma SecondFrameWaits(f: Frame, g: Frame, ping: bool, size: Size)
    requires Fits(f, size) && Fits(g, size)
    ensures Run(START, [Chunk(Encode(f) + Encode(g), ping)], size).messages == [Message(f.kind, f.seqno, f.data)]
  {
    hide Turn, Stream, Encode, Messages, Fits;
    var chunk := Chunk(Encode(f) + Encode(g), ping);
    StartInOrder(size);
    StreamOf(f);
    assert [] + [f] == [f] && [] + [f, g] == [f, g] && [] + chunk.bytes == chunk.bytes;
    assert Stream([f, g]) == chunk.bytes by {
      StreamOf(g);
      StreamJoin([f], [g]);
      assert [f] + [g] == [f, g];
    }
    TurnInOrder(START, [], [f, g], [], chunk, size);
    MessagesNext([], f);
    assert [] + [chunk] == [chunk];
    RunNext(START, [], chunk, size);
  }

  lemma StreamOf(f: Frame)
    ensures Stream([f]) == Encode(f) && Stream([]) == [] && Messages([]) == []
    ensures [] + [Message(f.kind, f.seqno, f.data)] == [Message(f.kind, f.seqno, f.data)]
  {
    hide Encode;
    assert [f][..0] == [];
    assert [] + Encode(f) == Encode(f);
  }

  // ----- Room for the next read, and the state after a bad header -----

  /** A queue within the ring buffer is never full after a read, so the loop does not stop for lack of room. */
  lemma NeverFull(frames: seq<Frame>, chunks: seq<Chunk>, chunk: Chunk, size: Size)
    requires AllFit(frames, size) && Received(chunks + [chunk]) <= Stream(frames)
    requires |Run(START, chunks, size).pending| + |chunk.bytes| <= size && !Run(START, chunks + [chunk], size).lost
    ensures |Run(START, chunks + [chunk], size).pending| < size
  {
    hide Turn, AllFit, Fits, Stream, Encode, Run, Received;
    RunNext(START, chunks, chunk, size);
    TurnLost(Run(START, chunks, size), chunk, size);
    PrefixTrans(Received(chunks), chunk.bytes, Stream(frames));
    var j := RunInOrder(frames, chunks, size);
    var k := NextDone(Run(START, chunks, size), frames, j, Received(chunks), chunk, size);
    FrontLeaves(frames, j, |Received(chunks) + chunk.bytes|, size);
  }

  /** Between the frames done and the bytes received there is less than one ring buffer. */
  lemma FrontLeaves(frames: seq<Frame>, j: nat, n: nat, size: Size)
    requires j <= |frames| && AllFit(frames, size) && n <= |Stream(frames)|
    ensures Dispatches(frames[..j], frames[j..], n, size) ==> |Stream(frames[..j + 1])| == |Stream(frames[..j])| + |Encode(frames[j])|
    ensures !Dispatches(frames[..j], frames[j..], n, size) ==> n <= |Stream(frames[..j])| || n - |Stream(frames[..j])| < size
  {
    hide Stream, Encode;
    if j < |frames| {
      Around(frames, j);
      StreamAround(frames[..j], frames[j], []);
    } else {
      assert frames[..j] == frames;
    }
  }

  /** After a header with a bad signature or version nothing is dispatched, consumed or reported any more. */
  lemma {:induction false} LockedForever(st: Rx, chunks: seq<Chunk>, size: Size)
    requires st.locked && |st.pending| >= COMMON_HEADER
    ensures var end := Run(st, chunks, size);
      && end == st.(pending := end.pending, lost := end.lost) && |end.pending| >= COMMON_HEADER
      && (!end.lost ==> end.pending == st.pending + Received(chunks))
    decreases |chunks|
  {
    hide Turn;
    if chunks == [] {
      assert st.pending + [] == st.pending;
    } else {
      var before, chunk := chunks[..|chunks| - 1], chunks[|chunks| - 1];
      LockedForever(st, before, size);
      TurnLost(Run(st, before, size), chunk, size);
      LockedTurn(Run(st, before, size), chunk, size);
      Associates(st.pending, Received(before), chunk.bytes);
    }
  }

  lemma Associates(a: seq<Byte>, b: seq<Byte>, c: seq<Byte>)
    ensures (a + b) + c == a + (b + c)
  {
  }

  lemma LockedTurn(st: Rx, chunk: Chunk, size: Size)
    requires st.locked && |st.pending| >= COMMON_HEADER
    ensures Take(st, chunk, size) == st.(pending := st.pending + chunk.bytes)
  {
    var c := st.pending + chunk.bytes;
    assert c[0..] == c && st.consumed + c[..0] == st.consumed && st.messages + [] == st.messages;
  }

  /** A call leaves the header locked just when it met a bad one, or a size of 0 modulo 2 to the 32. */
  lemma LocksIff(c: seq<Byte>, size: Size, ping: bool)
    requires |c| >= COMMON_HEADER
    ensures Handle(c, false, size, ping).locked <==>
      || Be32(c, 0) != 0xDECAFBAD
      || (if Be16(c, 4) == 0xABCD then !ping else Be16(c, 4) != 0xA9A9 || Be32(c, 8) == 0xFFFF_FFEC)
    ensures Handle(c, false, size, ping).locked ==>
      Handle(c, false, size, ping).outcome.Fatal? && Handle(c, false, size, ping).consumed == 0
  {
    hide Content, Be16, Be32;
    var header := c[..COMMON_HEADER];
    assert c[0..4] == header[0..4] && c[4..6] == header[4..6] && c[8..12] == header[8..12];
    Be32Within(c, 0, header[0..4]);
    Be32Within(header, 0, header[0..4]);
    Be16Within(c, 4, header[4..6]);
    Be16Within(header, 4, header[4..6]);
    Be32Within(c, 8, header[8..12]);
    Be32Within(header, 8, header[8..12]);
  }
}
