/** A stream of frames that the receiver in kismet/capture_framework.c does not survive: the ring buffer of
    kismet/simple_ringbuf_c.c misplaces one of its reads. */
module FramingLoss {
  import Cycles
  import opened Framing
  import opened RingBuffer

  /** The same frame so many times. */
  function Copies(f: Frame, k: nat): (frames: seq<Frame>)
    ensures |frames| == k
  {
    seq(k, _ => f)
  }

  lemma CopiesNext(f: Frame, k: nat)
    ensures Copies(f, k) + [f] == Copies(f, k + 1)
  {
  }

  lemma CopiesPart(f: Frame, k: nat, n: nat)
    requires k <= n
    ensures Copies(f, n)[..k] == Copies(f, k)
  {
  }

  lemma {:induction false} CopiesLength(f: Frame, k: nat)
    ensures |Stream(Copies(f, k))| == k * |Encode(f)|
  {
    hide Encode;
    if k != 0 {
      CopiesNext(f, k - 1);
      StreamAround(Copies(f, k - 1), f, []);
      CopiesLength(f, k - 1);
      Cycles.Distribute(k - 1, 1, |Encode(f)|);
    }
  }

  /** k reads of two frames each. */
  function Doubles(f: Frame, k: nat): seq<Chunk> {
    if k == 0 then [] else Doubles(f, k - 1) + [Chunk(Encode(f) + Encode(f), false)]
  }

  /** The reads so far have brought `received` copies of f, of which `done` are dispatched. */
  ghost predicate Backed(f: Frame, chunks: seq<Chunk>, size: Size, done: nat, received: nat) {
    && Received(chunks) == Stream(Copies(f, received))
    && done <= received && InOrder(Run(START, chunks, size), Copies(f, done), Received(chunks))
  }

  /** What that leaves in the queue. */
  lemma BackedSizes(f: Frame, chunks: seq<Chunk>, size: Size, done: nat, received: nat)
    requires Backed(f, chunks, size, done, received)
    ensures var st := Run(START, chunks, size);
      !st.lost && |st.consumed| == done * |Encode(f)| && |st.pending| == (received - done) * |Encode(f)|
  {
    hide Run, Received, Encode, Stream, Messages;
    CopiesLength(f, done);
    CopiesLength(f, received);
    Cycles.Distribute(received, done, |Encode(f)|);
  }

  lemma CopiesSum(f: Frame, a: nat, b: nat)
    ensures Copies(f, a) + Copies(f, b) == Copies(f, a + b)
  {
  }

  lemma BackedGives(f: Frame, chunks: seq<Chunk>, size: Size, done: nat, received: nat)
    requires Backed(f, chunks, size, done, received)
    ensures Received(chunks) == Stream(Copies(f, received)) && done <= received
    ensures InOrder(Run(START, chunks, size), Copies(f, done), Received(chunks)) && !Run(START, chunks, size).lost
  {
    hide Run, Received, Stream, Encode, Messages;
  }

  lemma MakesBacked(f: Frame, chunks: seq<Chunk>, size: Size, done: nat, received: nat)
    requires Received(chunks) == Stream(Copies(f, received)) && done <= received
    requires InOrder(Run(START, chunks, size), Copies(f, done), Received(chunks))
    ensures Backed(f, chunks, size, done, received)
  {
    hide Run, Received, Stream, Encode, InOrder;
  }

  /** Another copy that has arrived is dispatched. */
  lemma CopyDispatches(f: Frame, done: nat, received: nat, size: Size)
    requires done < received && Fits(f, size)
    ensures Dispatches(Copies(f, received)[..done], Copies(f, received)[done..], |Stream(Copies(f, received))|, size)
  {
    hide Encode, Stream, Fits;
    CopiesPart(f, done, received);
    CopiesPart(f, done + 1, received);
    StreamPrefix(Copies(f, received), done + 1);
    CopiesNext(f, done);
    StreamAround(Copies(f, done), f, []);
  }

  /** One more read of c copies dispatches one of them. */
  lemma BackedRead(f: Frame, chunks: seq<Chunk>, chunk: Chunk, size: Size, done: nat, received: nat, c: nat)
    requires Backed(f, chunks, size, done, received) && Fits(f, size)
    requires c >= 1 && chunk.bytes == Stream(Copies(f, c))
    requires !Misplaced(Run(START, chunks, size), chunk, size)
    ensures Backed(f, chunks + [chunk], size, done + 1, received + c)
  {
    hide *;
    var total := received + c;
    BackedGives(f, chunks, size, done, received);
    CopiesSum(f, received, c);
    StreamJoin(Copies(f, received), Copies(f, c));
    RunNext(START, chunks, chunk, size);
    TurnLost(Run(START, chunks, size), chunk, size);
    CopiesPart(f, done, total);
    CopiesPart(f, done + 1, total);
    CopyDispatches(f, done, total, size);
    var k := NextDone(Run(START, chunks, size), Copies(f, total), done, Received(chunks), chunk, size);
    MakesBacked(f, chunks + [chunk], size, done + 1, total);
  }

  lemma PairOfCopies(f: Frame)
    ensures Stream(Copies(f, 1)) == Encode(f) && Stream(Copies(f, 2)) == Encode(f) + Encode(f)
  {
    hide Encode, Stream;
    StreamOf(f);
    assert Copies(f, 1) == [f];
    StreamJoin([f], [f]);
    assert Copies(f, 2) == [f] + [f];
  }

  /** Before a full round is consumed no read is misplaced. */
  lemma BeforeFullRound(f: Frame, chunks: seq<Chunk>, chunk: Chunk, size: Size, done: nat, received: nat, q: nat)
    requires Backed(f, chunks, size, done, received) && q * |Encode(f)| == size && done < q
    ensures !Misplaced(Run(START, chunks, size), chunk, size)
  {
    hide Run, Encode, Received, InOrder, Backed;
    BackedSizes(f, chunks, size, done, received);
    var e := |Encode(f)|;
    if done > 0 {
      Cycles.Distribute(q, done, e);
      Cycles.MulGrows(q - done, e);
      Cycles.MulGrows(done, e);
      Cycles.ModIs(done * e, size, 0, done * e);
    } else {
      assert done * e == 0;
    }
  }

  lemma {:induction false} DoublesBacked(f: Frame, k: nat, q: nat, size: Size)
    requires q >= 2 && q * |Encode(f)| == size && k < q
    ensures Backed(f, Doubles(f, k), size, k, 2 * k)
  {
    hide Run, Encode, Stream, Misplaced, Backed, Fits;
    if k == 0 {
      NothingBacked(f, size);
    } else {
      var chunk := Chunk(Encode(f) + Encode(f), false);
      DoublesBacked(f, k - 1, q, size);
      BeforeFullRound(f, Doubles(f, k - 1), chunk, size, k - 1, 2 * (k - 1), q);
      PairOfCopies(f);
      CopyFits(f, q, size);
      BackedRead(f, Doubles(f, k - 1), chunk, size, k - 1, 2 * (k - 1), 2);
    }
  }

  lemma NothingBacked(f: Frame, size: Size)
    ensures Backed(f, [], size, 0, 0)
  {
    assert Copies(f, 0) == [];
    StartInOrder(size);
  }

  lemma CopyFits(f: Frame, q: nat, size: Size)
    requires q >= 2 && q * |Encode(f)| == size
    ensures Fits(f, size)
  {
    Cycles.Distribute(q - 1, 1, |Encode(f)|);
    Cycles.MulGrows(q - 1, |Encode(f)|);
  }

  /** A frame whose size goes q times into the ring buffer reaches the misplaced read: q - 1 reads of two of them
      fill it but for one, one more read makes the consumption a full round, and the next is lost. */
  lemma MisplacedReached(f: Frame, q: nat, size: Size)
    requires q >= 2 && q * |Encode(f)| == size
    ensures
      var single := Chunk(Encode(f), false);
      var chunks := Doubles(f, q - 1) + [single];
      && !Run(START, chunks, size).lost && Run(START, chunks + [single], size).lost
      && Received(chunks + [single]) == Stream(Copies(f, 2 * q))
  {
    hide Run, Encode, Stream, Misplaced, Backed, Fits, Received, Turn, Copies;
    var e, single, doubles := |Encode(f)|, Chunk(Encode(f), false), Doubles(f, q - 1);
    DoublesBacked(f, q - 1, q, size);
    BeforeFullRound(f, doubles, single, size, q - 1, 2 * (q - 1), q);
    PairOfCopies(f);
    CopyFits(f, q, size);
    BackedRead(f, doubles, single, size, q - 1, 2 * (q - 1), 1);
    FullRound(f, doubles + [single], single, size, q, 2 * q - 1);
    RunNext(START, doubles + [single], single, size);
    TurnLost(Run(START, doubles + [single], size), single, size);
    BackedSizes(f, doubles + [single], size, q, 2 * q - 1);
    BackedReceived(f, doubles + [single], size, q, 2 * q - 1);
    CopiesSum(f, 2 * q - 1, 1);
    StreamJoin(Copies(f, 2 * q - 1), Copies(f, 1));
  }

  lemma BackedReceived(f: Frame, chunks: seq<Chunk>, size: Size, done: nat, received: nat)
    requires Backed(f, chunks, size, done, received)
    ensures Received(chunks) == Stream(Copies(f, received))
  {
  }

  /** With a full round consumed and room for one copy, reading that copy is the misplaced read. */
  lemma FullRound(f: Frame, chunks: seq<Chunk>, single: Chunk, size: Size, q: nat, received: nat)
    requires Backed(f, chunks, size, q, received) && q >= 2 && received == 2 * q - 1
    requires q * |Encode(f)| == size && single.bytes == Encode(f)
    ensures Misplaced(Run(START, chunks, size), single, size)
  {
    hide Run, Encode, Received, InOrder, Backed;
    BackedSizes(f, chunks, size, q, received);
    Cycles.Distribute(q - 1, 1, |Encode(f)|);
    Cycles.ModIs(size, size, 1, 0);
  }

  lemma {:induction false} DoublesLength(f: Frame, k: nat)
    ensures |Doubles(f, k)| == k
    ensures forall j :: 0 <= j < k ==> Doubles(f, k)[j] == Chunk(Encode(f) + Encode(f), false)
  {
    hide Encode;
    if k != 0 {
      DoublesLength(f, k - 1);
    }
  }

  lemma {:induction false} DoublesPart(f: Frame, k: nat, j: nat)
    requires j <= k
    ensures |Doubles(f, k)| == k && Doubles(f, k)[..j] == Doubles(f, j)
  {
    hide Encode;
    DoublesLength(f, k);
    if j < k {
      DoublesLength(f, k - 1);
      DoublesPart(f, k - 1, j);
    }
  }

  /** A state with so many copies done and received has room for a read of c more. */
  lemma BackedFits(f: Frame, chunks: seq<Chunk>, chunk: Chunk, size: Size, done: nat, received: nat, c: nat, q: nat)
    requires Backed(f, chunks, size, done, received) && q * |Encode(f)| == size && received - done + c <= q
    requires |chunk.bytes| == c * |Encode(f)| && 0 < |chunk.bytes| <= READ_SLOT
    ensures Fitting(Run(START, chunks, size), chunk, size)
  {
    hide Run, Encode, Received, InOrder, Backed;
    var e := |Encode(f)|;
    BackedSizes(f, chunks, size, done, received);
    Cycles.Distribute(received - done, c, e);
    Cycles.Distribute(q, received - done + c, e);
    assert (q - (received - done + c)) * e >= 0;
  }

  lemma DoublesRoomy(f: Frame, q: nat, size: Size)
    requires q >= 2 && q * |Encode(f)| == size && 2 * |Encode(f)| <= READ_SLOT
    ensures Roomy(START, Doubles(f, q - 1), size)
  {
    hide Run, Encode, Backed, Fitting;
    var chunks := Doubles(f, q - 1);
    forall j | 0 <= j < |chunks|
      ensures Fitting(Run(START, chunks[..j], size), chunks[j], size)
    {
      DoublesLength(f, q - 1);
      DoublesPart(f, q - 1, j);
      DoublesBacked(f, j, q, size);
      BackedFits(f, Doubles(f, j), Chunk(Encode(f) + Encode(f), false), size, j, 2 * j, 2, q);
    }
  }

  lemma RoomyNext(st: Rx, chunks: seq<Chunk>, chunk: Chunk, size: Size)
    requires Roomy(st, chunks, size) && Fitting(Run(st, chunks, size), chunk, size)
    ensures Roomy(st, chunks + [chunk], size)
  {
    hide Run, Fitting;
    var all := chunks + [chunk];
    forall j | 0 <= j < |all|
      ensures Fitting(Run(st, all[..j], size), all[j], size)
    {
      if j < |chunks| {
        assert all[..j] == chunks[..j];
      } else {
        assert all[..j] == chunks;
      }
    }
  }

  /** None of those reads asks for more than its slot and the room there is. */
  lemma MisplacedRoomy(f: Frame, q: nat, size: Size)
    requires q >= 2 && q * |Encode(f)| == size && 2 * |Encode(f)| <= READ_SLOT
    ensures var single := Chunk(Encode(f), false);
      Roomy(START, Doubles(f, q - 1) + [single] + [single], size)
  {
    hide Run, Encode, Stream, Misplaced, Backed, Fits, Received, Roomy, Fitting;
    var single, doubles := Chunk(Encode(f), false), Doubles(f, q - 1);
    DoublesRoomy(f, q, size);
    DoublesBacked(f, q - 1, q, size);
    BackedFits(f, doubles, single, size, q - 1, 2 * (q - 1), 1, q);
    RoomyNext(START, doubles, single, size);
    BeforeFullRound(f, doubles, single, size, q - 1, 2 * (q - 1), q);
    PairOfCopies(f);
    CopyFits(f, q, size);
    BackedRead(f, doubles, single, size, q - 1, 2 * (q - 1), 1);
    BackedFits(f, doubles + [single], single, size, q, 2 * q - 1, 1, q);
    RoomyNext(START, doubles + [single], single, size);
  }

  /** In the receiver's ring buffer: frames of 12 data bytes, 2047 reads of two of them and two of one. */
  lemma MisplacedInRing(f: Frame)
    requires |f.data| == 12
    ensures
      var single := Chunk(Encode(f), false);
      var chunks := Doubles(f, 2047) + [single] + [single];
      Roomy(START, chunks, 65536) && Run(START, chunks, 65536).lost
  {
    hide Run, Encode, Roomy;
    MisplacedReached(f, 2048, 65536);
    MisplacedRoomy(f, 2048, 65536);
  }
}
