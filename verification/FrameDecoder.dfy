// What check_data of src/client.c does to the received bytes, and what it means on streams of frames.
module FrameDecoder {
  import opened Bytes
  import opened ByteSearch
  import opened ChannelInfo

  /** The stretches check_data takes off the ring, in order: bytes thrown away, channel
      texts with acceptable and unacceptable values, and whole A/D frames. */
  datatype Piece =
    Junk(bytes: seq<byte>) | Config(bytes: seq<byte>) | BadConfig(bytes: seq<byte>) | Data(bytes: seq<byte>)

  /** What follows one round of the loop: another round, a return, or fail(). */
  datatype Next = Again | Stop | Abort

  datatype Round = Round(pieces: seq<Piece>, rest: seq<byte>, next: Next)

  /** find_chan_info. */
  function FindChanInfo(buf: seq<byte>): (c: int)
    ensures c == -1 || (c >= 0 && c + CHANINFOLEN <= |buf| && Scan(buf[c..c + CHANINFOLEN]).count == 3)
  {
    var c := Leftmost(buf, CHANTOKEN);
    if c < 0 || |buf| < c + CHANINFOLEN || Scan(buf[c..c + CHANINFOLEN]).count < 3 then -1 else c
  }

  function Dropped(buf: seq<byte>, n: nat): seq<Piece>
    requires n <= |buf|
  {
    if n > 0 then [Junk(buf[..n])] else []
  }

  /** A text that scans and whose numbers check_channel_info accepts. */
  predicate GoodText(text: seq<byte>) {
    Scan(text).count == 3 && Accepted(Scan(text).info)
  }

  /** get_chan_info. */
  function GetChanInfo(buf: seq<byte>, index: nat): Round
    requires index <= |buf|
  {
    var r := buf[index..];
    if |r| < CHANINFOLEN then Round(Dropped(buf, index), r, Stop)
    else
      var text, rest := r[..CHANINFOLEN], r[CHANINFOLEN..];
      if GoodText(text) then Round(Dropped(buf, index) + [Config(text)], rest, Again)
      else Round(Dropped(buf, index) + [BadConfig(text)], rest, Stop)
  }

  /** The length of the frame whose pre-header starts r. */
  function FrameLength(r: seq<byte>): nat
    requires |r| >= 6
  {
    PREHDRLEN + r[4] as nat + 256 * r[5] as nat
  }

  /** What get_adc_data makes of a ring that starts at the token. The strcmp stops at a zero
      low byte of the length, and then succeeds. */
  function AdcNext(r: seq<byte>): Next {
    if |r| <= PREHDRLEN then Stop
    else if r[..4] == ADCTOKEN && r[4] == 0 then Abort
    else if |r| < FrameLength(r) then Stop
    else Again
  }

  /** get_adc_data. */
  function GetAdcData(buf: seq<byte>, index: nat): Round
    requires index <= |buf|
  {
    var r := buf[index..];
    if AdcNext(r) == Again
    then Round(Dropped(buf, index) + [Data(r[..FrameLength(r)])], r[FrameLength(r)..], Again)
    else Round(Dropped(buf, index), r, AdcNext(r))
  }

  /** One round of check_data's loop. */
  function OneRound(buf: seq<byte>, inhibit: bool): (r: Round)
    ensures r.next == Again ==> |r.rest| + PREHDRLEN <= |buf|
  {
    var chanidx := FindChanInfo(buf);
    var adcidx := if inhibit then -1 else Leftmost(buf, ADCTOKEN);
    if chanidx >= 0 && chanidx < adcidx then GetChanInfo(buf, chanidx)
    else if adcidx >= 0 then GetAdcData(buf, adcidx)
    else if chanidx >= 0 then GetChanInfo(buf, chanidx)
    else Round([], buf, Stop)
  }

  datatype Outcome = Outcome(pieces: seq<Piece>, rest: seq<byte>, aborted: bool)

  function Prepend(pieces: seq<Piece>, o: Outcome): Outcome {
    o.(pieces := pieces + o.pieces)
  }

  function Rounds(buf: seq<byte>, inhibit: bool): Outcome
    decreases |buf|
  {
    var r := OneRound(buf, inhibit);
    if r.next == Again then Prepend(r.pieces, Rounds(r.rest, inhibit))
    else Outcome(r.pieces, r.rest, r.next == Abort)
  }

  /** The clean-up when A/D data is inhibited. */
  function Cleaned(o: Outcome, inhibit: bool): Outcome {
    if inhibit && !o.aborted && |o.rest| > |CHANTOKEN|
    then Outcome(o.pieces + [Junk(o.rest)], [], false)
    else o
  }

  /** check_data: the rounds, and the clean-up. */
  function CheckData(buf: seq<byte>, inhibit: bool): Outcome {
    Cleaned(Rounds(buf, inhibit), inhibit)
  }

  // ----- what is stored -----

  function CrcOk(b: seq<byte>): bool
    requires |b| >= PREHDRLEN
  {
    XorAll(b[4..|b| - 1]) == b[|b| - 1]
  }

  /** A frame whose packet is put in the cache: a good checksum and type A/D data. */
  predicate IsStored(p: Piece) {
    p.Data? && |p.bytes| >= PREHDRLEN && CrcOk(p.bytes) && p.bytes[6] == ADC_AD_DATA
  }

  /** The packet images handed to RING_STORE, in order. */
  function StoredImages(ps: seq<Piece>): seq<seq<byte>> {
    if ps == [] then [] else StoredImages(ps[..|ps| - 1]) + StoredOf(ps[|ps| - 1])
  }

  function StoredOf(p: Piece): seq<seq<byte>> {
    if IsStored(p) then [p.bytes] else []
  }

  /** The channel information known after the pieces. */
  function LastInfo(ps: seq<Piece>, info: ChannelInfo): ChannelInfo {
    if ps == [] then info
    else if ps[|ps| - 1].Config? then Scan(ps[|ps| - 1].bytes).info
    else LastInfo(ps[..|ps| - 1], info)
  }

  function Raw(ps: seq<Piece>): seq<byte> {
    if ps == [] then [] else Raw(ps[..|ps| - 1]) + ps[|ps| - 1].bytes
  }

  lemma {:induction false} RawAppend(a: seq<Piece>, b: seq<Piece>)
    ensures Raw(a + b) == Raw(a) + Raw(b)
  {
    if b == [] {
      assert a + b == a;
    } else {
      var r := b[..|b| - 1];
      RawAppend(a, r);
      assert (a + b)[..|a + b| - 1] == a + r;
      ConcatAssociative(Raw(a), Raw(r), b[|b| - 1].bytes);
      assert Raw(a) + (Raw(r) + b[|b| - 1].bytes) == Raw(a + b);
    }
  }

  lemma {:induction false} StoredImagesAppend(a: seq<Piece>, b: seq<Piece>)
    ensures StoredImages(a + b) == StoredImages(a) + StoredImages(b)
  {
    if b == [] {
      assert a + b == a;
    } else {
      var r := b[..|b| - 1];
      StoredImagesAppend(a, r);
      assert (a + b)[..|a + b| - 1] == a + r;
      ConcatAssociative(StoredImages(a), StoredImages(r), StoredOf(b[|b| - 1]));
    }
  }

  lemma {:induction false} LastInfoAppend(a: seq<Piece>, b: seq<Piece>, info: ChannelInfo)
    ensures LastInfo(a + b, info) == LastInfo(b, LastInfo(a, info))
  {
    if b == [] {
      assert a + b == a;
    } else {
      LastInfoAppend(a, b[..|b| - 1], info);
      assert (a + b)[..|a + b| - 1] == a + b[..|b| - 1];
    }
  }

  // ----- arbitrary, possibly corrupt, streams -----

  /** A data piece is one whole frame: token, length field, and no zero low length byte. */
  ghost predicate IsFrame(b: seq<byte>) {
    |b| > PREHDRLEN && b[..4] == ADCTOKEN && b[4] != 0 && |b| == FrameLength(b)
  }

  ghost predicate PieceOk(p: Piece) {
    && (p.Data? ==> IsFrame(p.bytes))
    && (p.Config? ==> |p.bytes| == CHANINFOLEN && Accepted(Scan(p.bytes).info))
  }

  ghost predicate PiecesOk(ps: seq<Piece>) {
    forall p :: p in ps ==> PieceOk(p)
  }

  lemma DroppedOk(buf: seq<byte>, n: nat)
    requires n <= |buf|
    ensures PiecesOk(Dropped(buf, n)) && Raw(Dropped(buf, n)) == buf[..n]
    ensures Raw(Dropped(buf, n)) + buf[n..] == buf
  {
    RawOne(Junk(buf[..n]));
  }

  lemma RawOne(p: Piece)
    ensures Raw([p]) == p.bytes
  {
    assert Raw([]) + p.bytes == p.bytes;
    assert [p][..0] == [];
  }

  lemma CutInThree(buf: seq<byte>, index: nat, end: nat)
    requires index <= end <= |buf|
    ensures buf[..index] + buf[index..end] + buf[end..] == buf
  {
  }

  lemma TakenOk(buf: seq<byte>, index: nat, p: Piece, end: nat)
    requires index <= end <= |buf| && p.bytes == buf[index..end] && PieceOk(p)
    ensures PiecesOk(Dropped(buf, index) + [p])
    ensures Raw(Dropped(buf, index) + [p]) + buf[end..] == buf
  {
    DroppedOk(buf, index);
    RawAppend(Dropped(buf, index), [p]);
    RawOne(p);
    CutInThree(buf, index, end);
  }

  lemma GetAdcDataOk(buf: seq<byte>, index: nat)
    requires OccursAt(buf, ADCTOKEN, index)
    ensures var r := GetAdcData(buf, index); PiecesOk(r.pieces) && Raw(r.pieces) + r.rest == buf
  {
    DroppedOk(buf, index);
    var r := buf[index..];
    assert r[..4] == buf[index..index + 4];
    if |r| > PREHDRLEN && r[4] != 0 && |r| >= FrameLength(r) {
      assert r[..FrameLength(r)] == buf[index..index + FrameLength(r)];
      assert r[FrameLength(r)..] == buf[index + FrameLength(r)..];
      TakenOk(buf, index, Data(r[..FrameLength(r)]), index + FrameLength(r));
    }
  }

  lemma GetChanInfoOk(buf: seq<byte>, index: nat)
    requires index <= |buf|
    ensures var r := GetChanInfo(buf, index); PiecesOk(r.pieces) && Raw(r.pieces) + r.rest == buf
  {
    DroppedOk(buf, index);
    var r := buf[index..];
    if |r| >= CHANINFOLEN {
      var text := r[..CHANINFOLEN];
      assert text == buf[index..index + CHANINFOLEN];
      assert r[CHANINFOLEN..] == buf[index + CHANINFOLEN..];
      var p := if GoodText(text) then Config(text) else BadConfig(text);
      TakenOk(buf, index, p, index + CHANINFOLEN);
    }
  }

  lemma OneRoundOk(buf: seq<byte>, inhibit: bool)
    ensures var r := OneRound(buf, inhibit); PiecesOk(r.pieces) && Raw(r.pieces) + r.rest == buf
  {
    var chanidx, adcidx := FindChanInfo(buf), Leftmost(buf, ADCTOKEN);
    if chanidx >= 0 { GetChanInfoOk(buf, chanidx); }
    if adcidx >= 0 { GetAdcDataOk(buf, adcidx); }
    assert Raw([]) + buf == buf;
  }

  lemma JoinOk(ps: seq<Piece>, qs: seq<Piece>, buf: seq<byte>, mid: seq<byte>, rest: seq<byte>)
    requires PiecesOk(ps) && Raw(ps) + mid == buf
    requires PiecesOk(qs) && Raw(qs) + rest == mid
    ensures PiecesOk(ps + qs) && Raw(ps + qs) + rest == buf
  {
    RawAppend(ps, qs);
  }

  lemma {:induction false} RoundsOk(buf: seq<byte>, inhibit: bool)
    ensures var o := Rounds(buf, inhibit); PiecesOk(o.pieces) && Raw(o.pieces) + o.rest == buf
    decreases |buf|
  {
    var r := OneRound(buf, inhibit);
    OneRoundOk(buf, inhibit);
    if r.next == Again {
      RoundsOk(r.rest, inhibit);
      var o := Rounds(r.rest, inhibit);
      JoinOk(r.pieces, o.pieces, buf, r.rest, o.rest);
    }
  }

  /** Nothing is lost, invented or reordered: the pieces and what stays on the ring are the
      bytes that were there, and every data piece is one whole frame of them. */
  lemma CheckDataOk(buf: seq<byte>, inhibit: bool)
    ensures var o := CheckData(buf, inhibit); PiecesOk(o.pieces) && Raw(o.pieces) + o.rest == buf
  {
    RoundsOk(buf, inhibit);
    var o := Rounds(buf, inhibit);
    RawAppend(o.pieces, [Junk(o.rest)]);
    RawOne(Junk(o.rest));
  }

  lemma {:induction false} InhibitedRounds(buf: seq<byte>)
    ensures forall p :: p in Rounds(buf, true).pieces ==> !p.Data?
    ensures !Rounds(buf, true).aborted
    decreases |buf|
  {
    var r := OneRound(buf, true);
    if r.next == Again {
      InhibitedRounds(r.rest);
    }
  }

  lemma {:induction false} NoDataNoImages(ps: seq<Piece>)
    requires forall p :: p in ps ==> !p.Data?
    ensures StoredImages(ps) == []
  {
    if ps != [] {
      NoDataNoImages(ps[..|ps| - 1]);
    }
  }

  /** An inhibited pass stores nothing and never leaves more than a token's length. */
  lemma InhibitedStoresNothing(buf: seq<byte>)
    ensures var o := CheckData(buf, true); StoredImages(o.pieces) == [] && !o.aborted && |o.rest| <= |CHANTOKEN|
  {
    InhibitedRounds(buf);
    NoDataNoImages(CheckData(buf, true).pieces);
  }

  /** The checksum test says that the bytes from the length field on cancel out: every bit is
      set in an even number of them. */
  lemma CrcOkIffXorZero(b: seq<byte>)
    requires |b| >= PREHDRLEN
    ensures CrcOk(b) <==> XorAll(b[4..]) == 0
    ensures CrcOk(b) <==> EvenBits(b[4..])
  {
    assert b[4..][..|b[4..]| - 1] == b[4..|b| - 1];
    XorAllZeroIff(b[4..]);
  }
}
