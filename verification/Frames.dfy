// Frames as a peer builds them, and what the client makes of them.
module Frames {
  import opened Bytes
  import opened ChannelInfo
  import opened FrameDecoder
  import opened FrameStream
  import opened SortedCache
  import Client
  import Delivery
  import S = Sender

  /** An A/D frame: the token, the length of the body with its low byte first, the type, the
      flags and the body, whose last byte is the checksum. */
  function Frame(adcType: byte, flags: byte, body: seq<byte>): (f: seq<byte>)
    requires |body| < 0x1_0000
    ensures |f| == PREHDRLEN + |body|
  {
    ADCTOKEN + ([(|body| % 256) as byte, (|body| / 256) as byte, adcType, flags] + body)
  }

  lemma FrameBytes(adcType: byte, flags: byte, body: seq<byte>)
    requires |body| < 0x1_0000
    ensures var f := Frame(adcType, flags, body);
      && ADCTOKEN <= f && f[..4] == ADCTOKEN == [0xAA, 0x55, 0x88, 0x44]
      && f[4] as nat == |body| % 256 && f[5] as nat == |body| / 256
      && f[6] == adcType && f[7] == flags && f[8..] == body
      && f[4..] == [f[4], f[5], adcType, flags] + body
  {
  }

  /** A body whose length does not end in a zero byte makes a frame the client takes, any
      other one it aborts on. */
  lemma FrameIsWireIff(adcType: byte, flags: byte, body: seq<byte>)
    requires 8 + |body| <= 5000
    ensures var f := Frame(adcType, flags, body);
      && (IsWireFrame(f) <==> |body| % 256 != 0) && (IsFatal(f) <==> |body| % 256 == 0)
      && (|body| % 256 != 0 ==> PieceOf(f) == Data(f))
  {
    var f := Frame(adcType, flags, body);
    FrameBytes(adcType, flags, body);
  }

  /** The client takes off exactly the frame that was built, whatever follows it. */
  lemma FrameTaken(adcType: byte, flags: byte, body: seq<byte>, rest: seq<byte>)
    requires 8 + |body| <= 5000 && |body| % 256 != 0
    ensures var f := Frame(adcType, flags, body);
      OneRound(f + rest, false) == Round([Data(f)], rest, Again)
  {
    FrameIsWireIff(adcType, flags, body);
    FrameRound(Frame(adcType, flags, body), rest);
  }

  /** It stores the frame exactly when its type is 3 and every bit from the length field on is
      set an even number of times. */
  lemma FrameStoredIff(adcType: byte, flags: byte, body: seq<byte>)
    requires PREHDRLEN + |body| < 0x1_0000
    ensures IsStored(Data(Frame(adcType, flags, body))) <==>
      adcType == 3 && EvenBits([(|body| % 256) as byte, (|body| / 256) as byte, adcType, flags] + body)
  {
    FrameBytes(adcType, flags, body);
    CrcOkIffXorZero(Frame(adcType, flags, body));
  }

  // ----- lists of messages -----

  datatype Message = Text(info: ChannelInfo) | AdcFrame(adcType: byte, flags: byte, body: seq<byte>)

  ghost predicate Sendable(m: Message) {
    match m
    case Text(info) => Accepted(info)
    case AdcFrame(_, _, body) => 8 + |body| <= 5000 && |body| % 256 != 0
  }

  ghost predicate AllSendable(ms: seq<Message>) {
    forall m :: m in ms ==> Sendable(m)
  }

  function Wire(m: Message): seq<byte> {
    match m
    case Text(info) => Print(info)
    case AdcFrame(adcType, flags, body) => if |body| < 0x1_0000 then Frame(adcType, flags, body) else []
  }

  function Wires(ms: seq<Message>): seq<seq<byte>> {
    if ms == [] then [] else Wires(ms[..|ms| - 1]) + [Wire(ms[|ms| - 1])]
  }

  /** What is to be stored of the messages. */
  ghost function ToStore(ms: seq<Message>): seq<seq<byte>> {
    if ms == [] then []
    else
      var m := ms[|ms| - 1];
      ToStore(ms[..|ms| - 1]) +
      (if m.AdcFrame? && m.adcType == 3 && |m.body| < 0x1_0000
          && EvenBits([(|m.body| % 256) as byte, (|m.body| / 256) as byte, m.adcType, m.flags] + m.body)
       then [Wire(m)] else [])
  }

  lemma WireOk(m: Message)
    requires Sendable(m)
    ensures IsWireFrame(Wire(m))
    ensures PieceOf(Wire(m)) == if m.Text? then Config(Wire(m)) else Data(Wire(m))
  {
    match m
    case Text(info) =>
      PrintedIsConfigText(info);
      assert Print(info)[..5][0] == CHANTOKEN[0] && Print(info)[0] != ADCTOKEN[0];
    case AdcFrame(adcType, flags, body) =>
      FrameIsWireIff(adcType, flags, body);
  }

  lemma {:induction false} WiresOk(ms: seq<Message>)
    requires AllSendable(ms)
    ensures AllWireFrames(Wires(ms)) && StoredFrames(Wires(ms)) == ToStore(ms)
  {
    if ms != [] {
      var before, m := ms[..|ms| - 1], ms[|ms| - 1];
      assert m in ms;
      WiresOk(before);
      WireOk(m);
      var frames := Wires(ms);
      assert frames[..|frames| - 1] == Wires(before);
      if m.AdcFrame? {
        FrameStoredIff(m.adcType, m.flags, m.body);
      }
    }
  }

  /** Messages built by a peer and cut into any chunks: the client takes off exactly those
      received whole. */
  lemma MessagesDecode(ms: seq<Message>, chunks: seq<seq<byte>>)
    requires AllSendable(ms) && Flatten(chunks) <= Flatten(Wires(ms))
    ensures var s := SplitFrames(Wires(ms), Flatten(chunks));
      && Feed([], chunks) == Outcome(PiecesOf(s.done), s.rest, false)
      && s.done + s.todo == Wires(ms) && Flatten(s.done) + s.rest == Flatten(chunks)
      && (s.todo != [] ==> s.rest < s.todo[0])
  {
    WiresOk(ms);
    WireFramesDecode(Wires(ms), chunks);
  }

  /** When all have arrived, it has stored exactly the checksummed type-3 frames. */
  lemma MessagesStored(ms: seq<Message>, chunks: seq<seq<byte>>)
    requires AllSendable(ms) && Flatten(chunks) == Flatten(Wires(ms))
    ensures var o := Feed([], chunks);
      !o.aborted && o.rest == [] && StoredImages(o.pieces) == ToStore(ms)
  {
    WiresOk(ms);
    AllArrived(Wires(ms), chunks);
    StoredImagesOfFrames(Wires(ms));
  }

  // ----- the data header -----

  /** A signed number as the unsigned one with the same w bytes. */
  function Wrapped(i: int, w: nat): int {
    if i < 0 then i + Pow256(w) else i
  }

  /** The data header from its calendar fields, milliseconds and packet id, and what follows. */
  function DataBody(calendar: seq<byte>, msec: int, id: int, more: seq<byte>): seq<byte>
    requires -0x8000 <= msec < 0x8000 && -0x8000_0000 <= id < 0x8000_0000
  {
    Pow256Four();
    calendar + (LowFirst(Wrapped(msec, 2), 2) + (LowFirst(Wrapped(id, 4), 4) + more))
  }

  lemma Pow256Four()
    ensures Pow256(2) == 0x1_0000 && Pow256(4) == 0x1_0000_0000
  {
    assert Pow256(3) == 256 * Pow256(2);
  }

  lemma SignedReadsBack(msec: int, id: int)
    requires -0x8000 <= msec < 0x8000 && -0x8000_0000 <= id < 0x8000_0000
    ensures Wrapped(msec, 2) >= 0 && Wrapped(id, 4) >= 0
    ensures Client.Signed16(LowFirst(Wrapped(msec, 2), 2)) == msec
    ensures Client.Signed32(LowFirst(Wrapped(id, 4), 4)) == id
  {
    Pow256Four();
    ReadsBack(Wrapped(msec, 2), 2);
    ReadsBack(Wrapped(id, 4), 4);
  }

  /** Where the fields of the data header lie in the frame. */
  lemma HeaderFields(pre: seq<byte>, calendar: seq<byte>, ms: seq<byte>, id: seq<byte>, more: seq<byte>)
    requires |pre| == 8 && |calendar| == 14 && |ms| == 2 && |id| == 4
    ensures var f := pre + (calendar + (ms + (id + more)));
      f[8..22] == calendar && f[22..24] == ms && f[24..28] == id
  {
  }

  lemma FrameSplit(adcType: byte, flags: byte, body: seq<byte>)
    requires |body| < 0x1_0000
    ensures |Frame(adcType, flags, body)[..8]| == 8
    ensures Frame(adcType, flags, body) == Frame(adcType, flags, body)[..8] + body
  {
  }

  /** The packet offered for a built frame has the time of its calendar fields plus its
      milliseconds, its id, and its bytes. */
  lemma PacketOfBuilt(timegm: seq<byte> -> int, calendar: seq<byte>, msec: int, id: int, more: seq<byte>,
                      flags: byte, p: Packet)
    requires |calendar| == 14 && -0x8000 <= msec < 0x8000 && -0x8000_0000 <= id < 0x8000_0000
    requires |DataBody(calendar, msec, id, more)| < 0x1_0000
    requires Client.PacketFor(timegm, p, Frame(3, flags, DataBody(calendar, msec, id, more)))
    ensures p.time == timegm(calendar) as real + msec as real / 1000.0
    ensures p.id == id && p.valid && p.bytes == Frame(3, flags, DataBody(calendar, msec, id, more))
  {
    var body := DataBody(calendar, msec, id, more);
    var f := Frame(3, flags, body);
    SignedReadsBack(msec, id);
    FrameSplit(3, flags, body);
    HeaderFields(f[..8], calendar, LowFirst(Wrapped(msec, 2), 2), LowFirst(Wrapped(id, 4), 4), more);
  }

  /** Two packets of different times are both kept, in their order, however they arrive. */
  lemma BothCached(p: Packet, q: Packet, n: nat)
    requires p.time < q.time && n >= 2
    ensures Run([p, q], n) == [p, q] && Run([q, p], n) == [p, q]
  {
    assert [p, q][..1] == [p] && [q, p][..1] == [q] && [p][..0] == [] && [q][..0] == [];
    assert Run([p], n) == [p] && Run([q], n) == [q];
  }

  /** Frames of one second that differ in their milliseconds become two packets that far
      apart. */
  lemma MillisecondsApart(timegm: seq<byte> -> int, calendar: seq<byte>, m: int, m': int, p: Packet, q: Packet,
                          ids: (int, int), mores: (seq<byte>, seq<byte>), flags: byte, n: nat)
    requires |calendar| == 14 && 0 <= m < m' < 1000 && n >= 2
    requires -0x8000_0000 <= ids.0 < 0x8000_0000 && -0x8000_0000 <= ids.1 < 0x8000_0000
    requires |mores.0| < 5000 && |mores.1| < 5000
    requires Client.PacketFor(timegm, p, Frame(3, flags, DataBody(calendar, m, ids.0, mores.0)))
    requires Client.PacketFor(timegm, q, Frame(3, flags, DataBody(calendar, m', ids.1, mores.1)))
    ensures q.time - p.time == (m' - m) as real / 1000.0
    ensures Run([p, q], n) == [p, q] && Run([q, p], n) == [p, q]
  {
    PacketOfBuilt(timegm, calendar, m, ids.0, mores.0, flags, p);
    PacketOfBuilt(timegm, calendar, m', ids.1, mores.1, flags, q);
    BothCached(p, q, n);
  }

  // ----- one second of data -----

  /** A frame with a full data header, one second of samples and a checksum is as long as
      sdr_pkt_size says, four bytes a sample for type 4 and two for the others. */
  lemma OneSecondFrame(c: ChannelInfo, flags: byte, header: seq<byte>, samples: seq<byte>, crc: byte)
    requires |header| == 22 && |samples| == c.sps * c.numChannels * (if c.adcType == 4 then 4 else 2)
    requires |samples| < 0xFFE0
    ensures |Frame(3, flags, header + samples + [crc])| == S.SdrPktSize(c)
  {
  }
}
