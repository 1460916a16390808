/** The bytes of a frame on the wire, written out, and what the receiver of kismet/capture_framework.c makes of
    them. */
module FramingWire {
  import opened Common
  import opened Framing
  import opened RingBuffer

  /** The signature and the sentinel of version 3 (kismet/kis_external_packet.h). */
  const MAGIC: seq<Byte> := [0xDE, 0xCA, 0xFB, 0xAD, 0xA9, 0xA9]

  /** Two bytes, the high one first. */
  function Half(b0: Byte, b1: Byte): nat {
    (b0 as nat) * 256 + b1 as nat
  }

  /** Four bytes, the high one first. */
  function Word(b0: Byte, b1: Byte, b2: Byte, b3: Byte): nat {
    (b0 as nat) * 16777216 + (b1 as nat) * 65536 + (b2 as nat) * 256 + b3 as nat
  }

  /** Its inverse, by `HalfRoundTrip`. */
  function HalfBytes(x: Word16): seq<Byte> {
    [x / 256, x % 256]
  }

  /** Its inverse, by `WordRoundTrip`. */
  function WordBytes(x: Word32): seq<Byte> {
    HalfBytes(x / 65536) + HalfBytes(x % 65536)
  }

  lemma HalfRoundTrip(x: Word16)
    ensures Half(HalfBytes(x)[0], HalfBytes(x)[1]) == x
  {
  }

  lemma WordRoundTrip(x: Word32)
    ensures var s := WordBytes(x); Word(s[0], s[1], s[2], s[3]) == x
  {
    HalfRoundTrip(x / 65536);
    HalfRoundTrip(x % 65536);
  }

  /** A frame as it goes over the wire. */
  function Wire(f: Frame): seq<Byte> {
    MAGIC + HalfBytes(f.version) + WordBytes(|f.data|) + HalfBytes(f.kind) + HalfBytes(f.code) + WordBytes(f.seqno)
    + f.data
  }

  lemma Put16Is(x: Word16)
    ensures Put16(x) == HalfBytes(x)
  {
  }

  lemma Put32Is(x: Word32)
    ensures Put32(x) == WordBytes(x)
  {
    Put16Is(x / 65536);
    Put16Is(x % 65536);
  }

  lemma MagicIs()
    ensures WordBytes(0xDECAFBAD) + HalfBytes(0xA9A9) == MAGIC
  {
  }

  /** That is what the sender of the model writes. */
  lemma EncodeIsWire(f: Frame)
    ensures Encode(f) == Wire(f)
  {
    hide Put16, Put32, Be16, Be32, HalfBytes, WordBytes;
    Put32Is(0xDECAFBAD);
    Put16Is(0xA9A9);
    Put16Is(f.version);
    Put32Is(|f.data|);
    Put16Is(f.kind);
    Put16Is(f.code);
    Put32Is(f.seqno);
    MagicIs();
  }

  lemma Be16Is(s: seq<Byte>, at: nat)
    requires at + 2 <= |s|
    ensures Be16(s, at) == Half(s[at], s[at + 1])
  {
  }

  lemma Be32Is(s: seq<Byte>, at: nat)
    requires at + 4 <= |s|
    ensures Be32(s, at) == Word(s[at], s[at + 1], s[at + 2], s[at + 3])
  {
  }

  lemma SignatureBytes(s: seq<Byte>)
    requires |s| >= 4
    ensures Be32(s, 0) == 0xDECAFBAD <==> s[0] == 0xDE && s[1] == 0xCA && s[2] == 0xFB && s[3] == 0xAD
  {
  }

  lemma SentinelBytes(s: seq<Byte>)
    requires |s| >= 6
    ensures Be16(s, 4) == 0xA9A9 <==> s[4] == 0xA9 && s[5] == 0xA9
    ensures Be16(s, 4) == 0xABCD <==> s[4] == 0xAB && s[5] == 0xCD
  {
  }

  /** What a call does with the bytes in the queue, byte by byte: the version 3 header, the version 2 header, and
      anything else. */
  lemma HandleBytes(c: seq<Byte>, size: Size, ping: bool)
    requires |c| >= 12
    ensures
      var signed := c[0] == 0xDE && c[1] == 0xCA && c[2] == 0xFB && c[3] == 0xAD;
      var length := Word(c[8], c[9], c[10], c[11]);
      var h := Handle(c, false, size, ping);
      && (!signed ==> h == Handled(Fatal, 0, true))
      && (signed && c[4] == 0xAB && c[5] == 0xCD ==>
            h == if ping then Handled(LegacyPing, Min((length + 48) % 0x1_0000_0000, |c|), false)
                 else Handled(Fatal, 0, true))
      && (signed && !(c[4] == 0xAB && c[5] == 0xCD) && !(c[4] == 0xA9 && c[5] == 0xA9) ==> h == Handled(Fatal, 0, true))
      && (signed && c[4] == 0xA9 && c[5] == 0xA9 && length + 20 < 0x1_0000_0000 ==>
            h == if length + 20 >= size then Handled(Fatal, 0, false)
                 else if |c| < length + 20 then Handled(Waiting, 0, false)
                 else Handled(Dispatched(Message(Half(c[12], c[13]), Word(c[16], c[17], c[18], c[19]), c[20..20 + length])),
                              20 + length, false))
  {
    hide Be16, Be32, Content, Half, Word;
    var header := c[..COMMON_HEADER];
    SignatureBytes(header);
    SentinelBytes(header);
    Be32Is(header, 8);
    var length := Word(c[8], c[9], c[10], c[11]);
    if Be32(header, 0) == SIGNATURE && Be16(header, 4) == V3_SENTINEL && |c| >= length + 20 {
      ContentBytes(c[..20 + length], length, ping);
    }
  }

  /** A length so near 2^32 that the size of the frame wraps: no such frame is dispatched, and one of size 0 leaves
      the peek held. */
  lemma WrappedLength(c: seq<Byte>, size: Size, ping: bool)
    requires |c| >= 12 && c[..6] == MAGIC && Word(c[8], c[9], c[10], c[11]) >= 0xFFFF_FFEC
    ensures
      var total := Word(c[8], c[9], c[10], c[11]) - 0xFFFF_FFEC;
      Handle(c, false, size, ping)
      == if total >= size then Handled(Fatal, 0, false)
         else if |c| < total then Handled(Waiting, 0, false)
         else Handled(Fatal, total, total == 0)
  {
    hide Be16, Be32, Content, Word;
    var header := c[..COMMON_HEADER];
    MagicAt(c);
    SignatureBytes(header);
    SentinelBytes(header);
    Be32Is(header, 8);
    var total := Word(c[8], c[9], c[10], c[11]) - 0xFFFF_FFEC;
    assert Total(header, V3_HEADER) == total;
    if total <= |c| {
      WrappedContent(c, total, ping);
    }
  }

  lemma MagicAt(c: seq<Byte>)
    requires |c| >= 6
    ensures c[..6] == MAGIC
       <==> c[0] == 0xDE && c[1] == 0xCA && c[2] == 0xFB && c[3] == 0xAD && c[4] == 0xA9 && c[5] == 0xA9
  {
    if c[..6] == MAGIC {
      assert c[0] == c[..6][0] && c[1] == c[..6][1] && c[2] == c[..6][2];
      assert c[3] == c[..6][3] && c[4] == c[..6][4] && c[5] == c[..6][5];
    }
  }

  lemma WrappedContent(c: seq<Byte>, total: nat, ping: bool)
    requires |c| >= 12 && c[..6] == MAGIC && total <= |c|
    requires total < 20 && total < Word(c[8], c[9], c[10], c[11])
    ensures Content(c[..total], ping) == Fatal
  {
    hide Be16, Be32, Word;
    var frame := c[..total];
    if total >= 12 {
      assert frame[..6] == MAGIC;
      MagicAt(frame);
      SignatureBytes(frame);
      SentinelBytes(frame);
      Be32Is(frame, 8);
    }
  }

  /** A whole frame, whatever its version number and code. */
  lemma ContentBytes(frame: seq<Byte>, length: nat, ping: bool)
    requires |frame| == 20 + length && frame[..6] == MAGIC
    requires Word(frame[8], frame[9], frame[10], frame[11]) == length
    ensures Content(frame, ping)
         == Dispatched(Message(Half(frame[12], frame[13]), Word(frame[16], frame[17], frame[18], frame[19]), frame[20..]))
  {
    hide Be16, Be32, Half, Word;
    MagicAt(frame);
    SignatureBytes(frame);
    SentinelBytes(frame);
    Be32Is(frame, 8);
    Be16Is(frame, 12);
    Be32Is(frame, 16);
  }
}
