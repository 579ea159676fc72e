// The receiving side of src/client.c and src/buffer.c: feeding the ring, searching it, and check_data.
module Client {
  import opened Bytes
  import opened ByteSearch
  import opened ByteRing
  import opened ChannelInfo
  import opened FrameDecoder
  import opened SortedCache
  import opened PacketCache

  const DATAHDR_POS_TIME: nat := 8
  const DATAHDR_POS_MSEC: nat := 22
  const DATAHDR_POS_PACKETID: nat := 24
  const HEADERSLEN: nat := 28  // up to and with the packet id

  /** A two-byte and a four-byte two's complement number, low byte first. */
  function Signed16(s: seq<byte>): int {
    if WordLE(s) < 0x8000 then WordLE(s) else WordLE(s) - 0x1_0000
  }

  function Signed32(s: seq<byte>): int {
    if WordLE(s) < 0x8000_0000 then WordLE(s) else WordLE(s) - 0x1_0000_0000
  }

  /** decode_pkt_time on a data header; timegm of its calendar fields is a parameter. */
  function DecodePktTime(timegm: seq<byte> -> int, image: seq<byte>): real
    requires |image| >= HEADERSLEN
  {
    timegm(image[DATAHDR_POS_TIME..DATAHDR_POS_MSEC]) as real
    + Signed16(image[DATAHDR_POS_MSEC..DATAHDR_POS_PACKETID]) as real / 1000.0
  }

  /** The packet that add_to_data_ring makes of a frame with a full data header. */
  function PacketOf(timegm: seq<byte> -> int, image: seq<byte>): Packet
    requires |image| >= HEADERSLEN
  {
    Packet(DecodePktTime(timegm, image), Signed32(image[DATAHDR_POS_PACKETID..HEADERSLEN]), true, image)
  }

  /** The packet stored for an image. The header fields of a frame too short to hold them
      come from stale bytes of the receive buffer and are left open. */
  ghost predicate PacketFor(timegm: seq<byte> -> int, p: Packet, image: seq<byte>) {
    p.bytes == image && (|image| >= HEADERSLEN ==> p == PacketOf(timegm, image))
  }

  ghost predicate PacketsFor(timegm: seq<byte> -> int, ps: seq<Packet>, images: seq<seq<byte>>) {
    |ps| == |images| && forall i :: 0 <= i < |ps| ==> PacketFor(timegm, ps[i], images[i])
  }

  /** One packet for each image has been stored. */
  ghost predicate Added(timegm: seq<byte> -> int, stores: seq<Packet>, stores': seq<Packet>, images: seq<seq<byte>>) {
    exists ps :: PacketsFor(timegm, ps, images) && stores' == stores + ps
  }

  /** Taking the pieces off the ring leads from one client state to another. */
  ghost predicate Since(timegm: seq<byte> -> int, info: ChannelInfo, stores: seq<Packet>,
                        info': ChannelInfo, stores': seq<Packet>, pieces: seq<Piece>)
  {
    info' == LastInfo(pieces, info) && Added(timegm, stores, stores', StoredImages(pieces))
  }

  lemma NoneAdded(timegm: seq<byte> -> int, stores: seq<Packet>)
    ensures Added(timegm, stores, stores, [])
  {
    assert PacketsFor(timegm, [], []) && stores == stores + [];
  }

  lemma OneAdded(timegm: seq<byte> -> int, stores: seq<Packet>, p: Packet, image: seq<byte>)
    requires PacketFor(timegm, p, image)
    ensures Added(timegm, stores, stores + [p], [image])
  {
    assert PacketsFor(timegm, [p], [image]);
  }

  lemma NothingTaken(timegm: seq<byte> -> int, info: ChannelInfo, stores: seq<Packet>)
    ensures Since(timegm, info, stores, info, stores, [])
  {
    NoneAdded(timegm, stores);
  }

  /** Which branch of the loop body a round takes. */
  lemma RoundByTokens(buf: seq<byte>, inhibit: bool)
    ensures var c, a := FindChanInfo(buf), if inhibit then -1 else Leftmost(buf, ADCTOKEN);
      && c <= |buf| && a <= |buf|
      && OneRound(buf, inhibit) ==
           if c >= 0 && (c < a || a < 0) then GetChanInfo(buf, c)
           else if a >= 0 then GetAdcData(buf, a)
           else Round([], buf, Stop)
  {
  }

  lemma PacketsForAppend(timegm: seq<byte> -> int, ps: seq<Packet>, qs: seq<Packet>,
                         a: seq<seq<byte>>, b: seq<seq<byte>>)
    requires PacketsFor(timegm, ps, a) && PacketsFor(timegm, qs, b)
    ensures PacketsFor(timegm, ps + qs, a + b)
  {
  }

  lemma AddedTwice(timegm: seq<byte> -> int, stores: seq<Packet>, storesMid: seq<Packet>, stores': seq<Packet>,
                   a: seq<seq<byte>>, b: seq<seq<byte>>)
    requires Added(timegm, stores, storesMid, a) && Added(timegm, storesMid, stores', b)
    ensures Added(timegm, stores, stores', a + b)
  {
    var ps :| PacketsFor(timegm, ps, a) && storesMid == stores + ps;
    var qs :| PacketsFor(timegm, qs, b) && stores' == storesMid + qs;
    PacketsForAppend(timegm, ps, qs, a, b);
    ConcatAssociative(stores, ps, qs);
  }

  lemma SinceTwice(timegm: seq<byte> -> int, info: ChannelInfo, stores: seq<Packet>,
                   mid: ChannelInfo, storesMid: seq<Packet>, info': ChannelInfo, stores': seq<Packet>,
                   a: seq<Piece>, b: seq<Piece>)
    requires Since(timegm, info, stores, mid, storesMid, a)
    requires Since(timegm, mid, storesMid, info', stores', b)
    ensures Since(timegm, info, stores, info', stores', a + b)
  {
    LastInfoAppend(a, b, info);
    StoredImagesAppend(a, b);
    AddedTwice(timegm, stores, storesMid, stores', StoredImages(a), StoredImages(b));
  }

  /** search_ring: -1 when the token is not there or the ring holds less than it. */
  method SearchRing(target: seq<byte>, ring: Ring) returns (pos: int)
    requires ring.Valid() && ring.Capacity() <= BFRSIZE && target != []
    ensures pos == Leftmost(ring.Contents(), target)
  {
    var testbfr := new byte[BFRSIZE];
    var size := ring.BytesStored();
    if size != 0 && size >= |target| {
      var _ := ring.View(testbfr, size);
      assert testbfr[..size] == ring.Contents();
      pos := BytesInBytes(testbfr[..size], target, 4, 2);
    } else {
      pos := -1;
    }
  }

  /** find_chan_info. */
  method FindChannel(ring: Ring) returns (chanidx: int)
    requires ring.Valid() && ring.Capacity() <= BFRSIZE
    ensures chanidx == FindChanInfo(ring.Contents())
  {
    var tempBfr := new byte[BFRSIZE + 1];
    chanidx := SearchRing(CHANTOKEN, ring);
    if chanidx < 0 {
      return chanidx;
    }
    var stored := ring.BytesStored();
    if stored < chanidx + CHANINFOLEN {
      return -1;
    }
    var _ := ring.View(tempBfr, chanidx + CHANINFOLEN);
    assert tempBfr[chanidx..chanidx + CHANINFOLEN] == tempBfr[..chanidx + CHANINFOLEN][chanidx..];
    if Scan(tempBfr[chanidx..chanidx + CHANINFOLEN]).count < 3 {
      return -1;
    }
  }

  /** No packet to be stored is longer than a slot. */
  ghost predicate Fit(images: seq<seq<byte>>, slotSize: nat) {
    forall b :: b in images ==> |b| <= slotSize
  }

  // ----- what a round takes, by the ring from the token on -----

  function TextTaken(r: seq<byte>): bool {
    |r| >= CHANINFOLEN && GoodText(r[..CHANINFOLEN])
  }

  function TextRest(r: seq<byte>): seq<byte> {
    if |r| < CHANINFOLEN then r else r[CHANINFOLEN..]
  }

  function AdcRest(r: seq<byte>): seq<byte> {
    if AdcNext(r) == Again then r[FrameLength(r)..] else r
  }

  function AdcImages(r: seq<byte>): seq<seq<byte>> {
    if AdcNext(r) == Again && IsStored(Data(r[..FrameLength(r)])) then [r[..FrameLength(r)]] else []
  }

  lemma PieceAlone(p: Piece, info: ChannelInfo)
    ensures StoredImages([p]) == if IsStored(p) then [p.bytes] else []
    ensures LastInfo([p], info) == if p.Config? then Scan(p.bytes).info else info
  {
    assert [p][..0] == [] && StoredImages([]) == [] && LastInfo([], info) == info;
  }

  lemma DroppedAlone(buf: seq<byte>, index: nat, info: ChannelInfo)
    requires index <= |buf|
    ensures StoredImages(Dropped(buf, index)) == [] && LastInfo(Dropped(buf, index), info) == info
  {
    PieceAlone(Junk(buf[..index]), info);
  }

  lemma DroppedThen(buf: seq<byte>, index: nat, p: Piece, info: ChannelInfo)
    requires index <= |buf|
    ensures var ps := Dropped(buf, index) + [p];
      && StoredImages(ps) == (if IsStored(p) then [p.bytes] else [])
      && LastInfo(ps, info) == (if p.Config? then Scan(p.bytes).info else info)
  {
    DroppedAlone(buf, index, info);
    PieceAlone(p, info);
    LastInfoAppend(Dropped(buf, index), [p], info);
    StoredImagesAppend(Dropped(buf, index), [p]);
    NothingFirst(StoredImages([p]));
  }

  lemma NothingFirst<T>(x: seq<T>)
    ensures [] + x == x
  {
  }

  lemma TextRound(buf: seq<byte>, index: nat, info: ChannelInfo)
    requires index <= |buf|
    ensures var q, r := GetChanInfo(buf, index), buf[index..];
      && q.rest == TextRest(r) && q.next == (if TextTaken(r) then Again else Stop)
      && LastInfo(q.pieces, info) == (if TextTaken(r) then Scan(r[..CHANINFOLEN]).info else info)
      && StoredImages(q.pieces) == []
  {
    var r := buf[index..];
    DroppedAlone(buf, index, info);
    if |r| >= CHANINFOLEN {
      var text := r[..CHANINFOLEN];
      DroppedThen(buf, index, if GoodText(text) then Config(text) else BadConfig(text), info);
    }
  }

  lemma AdcRound(buf: seq<byte>, index: nat, info: ChannelInfo)
    requires index <= |buf|
    ensures var q, r := GetAdcData(buf, index), buf[index..];
      && q.rest == AdcRest(r) && q.next == AdcNext(r)
      && LastInfo(q.pieces, info) == info && StoredImages(q.pieces) == AdcImages(r)
  {
    var r := buf[index..];
    DroppedAlone(buf, index, info);
    if AdcNext(r) == Again {
      DroppedThen(buf, index, Data(r[..FrameLength(r)]), info);
    }
  }

  /** The checksum and the type of a frame in the buffer. */
  method IsGoodData(rcvBfr: array<byte>, len: nat) returns (good: bool)
    requires PREHDRLEN <= len <= rcvBfr.Length
    ensures good <==> IsStored(Data(rcvBfr[..len]))
  {
    ghost var f := rcvBfr[..len];
    var crc := DoCrc(rcvBfr, 4, len - 5);
    assert rcvBfr[4..4 + (len - 5)] == f[4..len - 1];
    good := crc == rcvBfr[len - 1] && rcvBfr[6] == ADC_AD_DATA;
  }

  class Receiver {
    const rcvRing: Ring
    const timegm: seq<byte> -> int
    var info: ChannelInfo        // new_chan_info
    const cache: Cache           // the packet cache

    ghost predicate Valid()
      reads this, rcvRing
    {
      rcvRing.Valid() && rcvRing.Capacity() == BFRSIZE
    }

    ghost function Buffered(): seq<byte>
      reads this, rcvRing, rcvRing.ring
      requires Valid()
    {
      rcvRing.Contents()
    }

    constructor (timegm: seq<byte> -> int, cache: Cache)
      ensures Valid() && Buffered() == [] && info == NOINFO
      ensures this.timegm == timegm && this.cache == cache && fresh(rcvRing) && fresh(rcvRing.ring)
    {
      rcvRing := new Ring.Alloc(BFRSIZE);
      this.timegm, this.cache := timegm, cache;
      info := NOINFO;
    }

    /** client_rcv_to_ring: arriving stands for what recv could deliver. At most the free
        bytes are taken, and none when there are none. */
    method RcvToRing(arriving: seq<byte>) returns (taken: nat)
      requires Valid()
      modifies rcvRing, rcvRing.ring
      ensures Valid()
      ensures var free := BFRSIZE - old(|Buffered()|); taken == if |arriving| < free then |arriving| else free
      ensures Buffered() == old(Buffered()) + arriving[..taken]
    {
      var free := rcvRing.BytesFree();
      if free == 0 {
        return 0;
      }
      taken := if |arriving| < free then |arriving| else free;
      var _ := rcvRing.Store(arriving[..taken]);
    }

    /** What one round or pass does to the state, by the pieces it takes off. */
    twostate predicate Took(pieces: seq<Piece>)
      reads this, cache
    {
      Since(timegm, old(info), old(cache.Offered), info, cache.Offered, pieces)
    }

    /** The cache is in order and still has the same slots. */
    twostate predicate CacheKept()
      reads cache, cache.store, cache.Slots
    {
      cache.Valid() && cache.Slots == old(cache.Slots) && cache.SlotSize == old(cache.SlotSize)
    }

    /** The clearing of the ring up to a token. */
    method DropTo(index: nat)
      requires Valid() && index <= |Buffered()|
      modifies rcvRing
      ensures Valid() && Buffered() == old(Buffered())[index..]
    {
      if index > 0 {
        var _ := rcvRing.Delete(index);
      }
    }

    /** get_chan_info from the token on: 0 when an acceptable text was taken, -1 otherwise. */
    method TakeChanText() returns (rv: int)
      requires Valid()
      modifies this`info, rcvRing
      ensures Valid() && Buffered() == TextRest(old(Buffered()))
      ensures rv == if TextTaken(old(Buffered())) then 0 else -1
      ensures info == if rv == 0 then Scan(old(Buffered())[..CHANINFOLEN]).info else old(info)
    {
      var rcvBfr := new byte[CHANINFOLEN + 1];
      rv := -1;
      var stored := rcvRing.BytesStored();
      if stored >= CHANINFOLEN {
        var _ := rcvRing.Retr(rcvBfr, CHANINFOLEN);
        var scanned := Scan(rcvBfr[..CHANINFOLEN]);
        if scanned.count == 3 {
          var bad := CheckChannelInfo(scanned.info);
          if bad == 0 {
            info := scanned.info;
            rv := 0;
          }
        }
      }
    }

    /** get_chan_info. */
    method TakeChanInfo(index: nat, ghost r: Round) returns (rv: int)
      requires Valid() && index <= |Buffered()| && r == GetChanInfo(Buffered(), index)
      modifies this`info, rcvRing
      ensures Valid() && Buffered() == r.rest && Took(r.pieces)
      ensures rv == (if r.next == Again then 0 else -1) && r.next != Abort
    {
      TextRound(Buffered(), index, info);
      NoneAdded(timegm, cache.Offered);
      DropTo(index);
      rv := TakeChanText();
    }

    /** add_to_data_ring: the fields are decoded from the buffer, whatever its length. */
    method AddToDataRing(packet: array<byte>, pktLen: nat) returns (ghost p: Packet)
      requires HEADERSLEN <= packet.Length && pktLen <= packet.Length
      requires cache.Valid() && pktLen <= cache.SlotSize
      modifies cache, cache.store, cache.Slots
      ensures CacheKept()
      ensures PacketFor(timegm, p, packet[..pktLen]) && cache.Offered == old(cache.Offered) + [p]
    {
      var bfr := packet[..];
      var id := Signed32(bfr[DATAHDR_POS_PACKETID..HEADERSLEN]);
      var thisPkt := Packet(DecodePktTime(timegm, bfr), id, true, bfr[..pktLen]);
      if pktLen >= HEADERSLEN {
        PacketFields(timegm, bfr, pktLen);
      }
      p := thisPkt;
      var _ := cache.Store(thisPkt);
    }

    /** The pre-header, once there is more than that on the ring. */
    method PeekPreHeader(rcvBfr: array<byte>) returns (enough: bool)
      requires Valid() && rcvBfr.Length == BFRSIZE && rcvBfr != rcvRing.ring
      modifies rcvBfr
      ensures enough <==> |Buffered()| > PREHDRLEN
      ensures enough ==> rcvBfr[..4] == Buffered()[..4] && rcvBfr[4] == Buffered()[4] && rcvBfr[5] == Buffered()[5]
    {
      var stored := rcvRing.BytesStored();
      enough := stored > PREHDRLEN;
      if enough {
        var _ := rcvRing.View(rcvBfr, PREHDRLEN);
        var got := rcvBfr[..PREHDRLEN];
        assert rcvBfr[..4] == got[..4] && rcvBfr[4] == got[4] && rcvBfr[5] == got[5];
      }
    }

    /** get_adc_data from the token on, without the storing: a frame to be stored is left in
        the buffer. */
    method TakeAdcFrame(rcvBfr: array<byte>, ghost slotSize: nat, ghost images: seq<seq<byte>>)
      returns (next: Next, toStore: nat)
      requires Valid() && rcvBfr.Length == BFRSIZE && rcvBfr != rcvRing.ring
      requires images == AdcImages(Buffered()) && Fit(images, slotSize)
      modifies rcvRing, rcvBfr
      ensures Valid() && next == AdcNext(old(Buffered())) && Buffered() == AdcRest(old(Buffered()))
      ensures toStore <= BFRSIZE && toStore <= slotSize
      ensures images == if toStore > 0 then [rcvBfr[..toStore]] else []
    {
      assert images != [] ==> |images[0]| <= slotSize;
      var len;
      next, len := Decide(rcvBfr);
      toStore := 0;
      if next == Again {
        toStore := TakeWholeFrame(rcvBfr, len);
      }
    }

    /** Whether a whole frame is on the ring, by its pre-header, and how long it is. */
    method Decide(rcvBfr: array<byte>) returns (next: Next, len: nat)
      requires Valid() && rcvBfr.Length == BFRSIZE && rcvBfr != rcvRing.ring
      modifies rcvBfr
      ensures next == AdcNext(Buffered())
      ensures next == Again ==> len == FrameLength(Buffered()) <= |Buffered()|
    {
      next, len := Stop, 0;
      var enough := PeekPreHeader(rcvBfr);
      if enough {
        if rcvBfr[..4] == ADCTOKEN && rcvBfr[4] == 0 {
          next := Abort;
        } else {
          len := PREHDRLEN + rcvBfr[4] as nat + 256 * rcvBfr[5] as nat;
          var stored := rcvRing.BytesStored();
          if stored >= len {
            next := Again;
          }
        }
      }
    }

    /** The frame is all on the ring: take it off and see whether it is to be stored. */
    method TakeWholeFrame(rcvBfr: array<byte>, len: nat) returns (toStore: nat)
      requires Valid() && PREHDRLEN <= len <= |Buffered()|
      requires rcvBfr.Length == BFRSIZE && rcvBfr != rcvRing.ring
      modifies rcvRing, rcvBfr
      ensures Valid() && Buffered() == old(Buffered())[len..]
      ensures rcvBfr[..len] == old(Buffered())[..len]
      ensures toStore == if IsStored(Data(rcvBfr[..len])) then len else 0
    {
      var _ := rcvRing.Retr(rcvBfr, len);
      var good := IsGoodData(rcvBfr, len);
      toStore := 0;
      if good {
        toStore := len;
      }
    }

    /** The call of add_to_data_ring, if the frame taken is to be stored. */
    method StoreTaken(rcvBfr: array<byte>, toStore: nat)
      requires cache.Valid() && rcvBfr.Length == BFRSIZE && toStore <= BFRSIZE && toStore <= cache.SlotSize
      modifies cache, cache.store, cache.Slots
      ensures CacheKept()
      ensures Added(timegm, old(cache.Offered), cache.Offered, if toStore > 0 then [rcvBfr[..toStore]] else [])
    {
      ghost var offered := cache.Offered;
      NoneAdded(timegm, offered);
      if toStore > 0 {
        ghost var p := AddToDataRing(rcvBfr, toStore);
        OneAdded(timegm, offered, p, rcvBfr[..toStore]);
      }
    }

    /** get_adc_data from the token on. */
    method StoreAdcFrame(rcvBfr: array<byte>, ghost images: seq<seq<byte>>) returns (next: Next)
      requires Valid() && cache.Valid() && images == AdcImages(Buffered()) && Fit(images, cache.SlotSize)
      requires rcvBfr.Length == BFRSIZE && rcvBfr != rcvRing.ring
      modifies rcvRing, rcvBfr, cache, cache.store, cache.Slots
      ensures Valid() && CacheKept()
      ensures next == AdcNext(old(Buffered())) && Buffered() == AdcRest(old(Buffered()))
      ensures Added(timegm, old(cache.Offered), cache.Offered, images)
    {
      var toStore;
      next, toStore := TakeAdcFrame(rcvBfr, cache.SlotSize, images);
      assert cache.Valid();
      StoreTaken(rcvBfr, toStore);
    }

    /** get_adc_data: 0 when a frame was taken, -1 when more bytes are needed; fail() ends the
        program. */
    method TakeAdcData(index: nat, ghost r: Round) returns (rv: int, aborted: bool)
      requires Valid() && index <= |Buffered()| && r == GetAdcData(Buffered(), index)
      requires cache.Valid() && Fit(StoredImages(r.pieces), cache.SlotSize)
      modifies rcvRing, cache, cache.store, cache.Slots
      ensures Valid() && CacheKept() && Buffered() == r.rest && Took(r.pieces)
      ensures rv == (if r.next == Again then 0 else -1) && (aborted <==> r.next == Abort)
    {
      AdcRound(Buffered(), index, info);
      DropTo(index);
      var rcvBfr := new byte[BFRSIZE];
      assert cache.Valid();
      var next := StoreAdcFrame(rcvBfr, AdcImages(Buffered()));
      rv, aborted := if next == Again then 0 else -1, next == Abort;
    }

    /** One round of check_data's loop. */
    method DoRound(inhibitAdc: bool, ghost r: Round) returns (again: bool, aborted: bool)
      requires Valid() && r == OneRound(Buffered(), inhibitAdc)
      requires cache.Valid() && Fit(StoredImages(r.pieces), cache.SlotSize)
      modifies this`info, rcvRing, cache, cache.store, cache.Slots
      ensures Valid() && CacheKept() && Buffered() == r.rest && Took(r.pieces)
      ensures (again <==> r.next == Again) && (aborted <==> r.next == Abort)
    {
      var chanidx, adcidx := FindTokens(inhibitAdc, r);
      var rv := -1;
      aborted := false;
      if chanidx >= 0 && (chanidx < adcidx || adcidx < 0) {
        rv := TakeChanInfo(chanidx, r);
      } else if adcidx >= 0 {
        rv, aborted := TakeAdcData(adcidx, r);
      } else {
        NothingTaken(timegm, info, cache.Offered);
      }
      again := rv == 0;
    }

    /** The two searches of a round. */
    method FindTokens(inhibitAdc: bool, ghost r: Round) returns (chanidx: int, adcidx: int)
      requires Valid() && r == OneRound(Buffered(), inhibitAdc)
      ensures chanidx <= |Buffered()| && adcidx <= |Buffered()|
      ensures r == if chanidx >= 0 && (chanidx < adcidx || adcidx < 0) then GetChanInfo(Buffered(), chanidx)
                   else if adcidx >= 0 then GetAdcData(Buffered(), adcidx)
                   else Round([], Buffered(), Stop)
    {
      RoundByTokens(Buffered(), inhibitAdc);
      chanidx := FindChannel(rcvRing);
      adcidx := -1;
      if !inhibitAdc {
        adcidx := SearchRing(ADCTOKEN, rcvRing);
      }
    }

    /** The loop of check_data. */
    method DoRounds(inhibitAdc: bool, ghost o: Outcome) returns (aborted: bool)
      requires Valid() && cache.Valid() && o == Rounds(Buffered(), inhibitAdc)
      requires Fit(StoredImages(o.pieces), cache.SlotSize)
      modifies this`info, rcvRing, cache, cache.store, cache.Slots
      ensures Valid() && CacheKept() && Buffered() == o.rest && Took(o.pieces) && aborted == o.aborted
    {
      ghost var start, info0, stores0 := Buffered(), info, cache.Offered;
      ghost var slots0, slotSize := cache.Slots, cache.SlotSize;
      ghost var pieces: seq<Piece> := [];
      NothingTaken(timegm, info, cache.Offered);
      ParsedNothing(start, inhibitAdc);
      aborted := false;
      var again := true;
      while again
        invariant Looping(start, info0, stores0, slots0, slotSize, pieces, inhibitAdc, again, aborted)
        decreases again, |Buffered()|
      {
        again, aborted, pieces := DoTurn(start, info0, stores0, slots0, slotSize, pieces, inhibitAdc);
      }
    }

    /** Where the loop stands since it began with the given buffer, information and stores. */
    ghost predicate Looping(start: seq<byte>, info0: ChannelInfo, stores0: seq<Packet>, slots0: set<Slot>,
                            slotSize: nat, pieces: seq<Piece>, inhibitAdc: bool, again: bool, aborted: bool)
      reads this, rcvRing, rcvRing.ring, cache, cache.store, cache.Slots
    {
      && Valid() && cache.Valid() && cache.Slots == slots0 && cache.SlotSize == slotSize
      && Fit(StoredImages(Rounds(start, inhibitAdc).pieces), slotSize)
      && Parsed(start, inhibitAdc, pieces, Buffered(), again, aborted)
      && Since(timegm, info0, stores0, info, cache.Offered, pieces)
    }

    /** One turn of the loop. */
    method DoTurn(ghost start: seq<byte>, ghost info0: ChannelInfo, ghost stores0: seq<Packet>, ghost slots0: set<Slot>,
                  ghost slotSize: nat, ghost pieces: seq<Piece>, inhibitAdc: bool)
      returns (again: bool, aborted: bool, ghost pieces': seq<Piece>)
      requires Looping(start, info0, stores0, slots0, slotSize, pieces, inhibitAdc, true, false)
      modifies this`info, rcvRing, cache, cache.store, cache.Slots
      ensures Looping(start, info0, stores0, slots0, slotSize, pieces', inhibitAdc, again, aborted)
      ensures again ==> |Buffered()| < old(|Buffered()|)
    {
      ghost var buf, infoMid, storesMid := Buffered(), info, cache.Offered;
      ghost var r := OneRound(buf, inhibitAdc);
      RoundThenRest(start, pieces, buf, inhibitAdc, cache.SlotSize);
      again, aborted := DoRound(inhibitAdc, r);
      SinceTwice(timegm, info0, stores0, infoMid, storesMid, info, cache.Offered, pieces, r.pieces);
      pieces' := pieces + r.pieces;
    }

    /** check_data. */
    method CheckIncoming(inhibitAdc: bool) returns (aborted: bool)
      requires Valid() && cache.Valid() && Fit(StoredImages(CheckData(Buffered(), inhibitAdc).pieces), cache.SlotSize)
      modifies this`info, rcvRing, cache, cache.store, cache.Slots
      ensures Valid() && CacheKept()
      ensures var o := CheckData(old(Buffered()), inhibitAdc);
        && Buffered() == o.rest && Took(o.pieces) && aborted == o.aborted
    {
      aborted := RoundsAndCleanUp(inhibitAdc, Rounds(Buffered(), inhibitAdc));
    }

    method RoundsAndCleanUp(inhibitAdc: bool, ghost o: Outcome) returns (aborted: bool)
      requires Valid() && cache.Valid() && o == Rounds(Buffered(), inhibitAdc)
      requires Fit(StoredImages(Cleaned(o, inhibitAdc).pieces), cache.SlotSize)
      modifies this`info, rcvRing, cache, cache.store, cache.Slots
      ensures Valid() && CacheKept()
      ensures var c := Cleaned(o, inhibitAdc);
        && Buffered() == c.rest && Took(c.pieces) && aborted == c.aborted
    {
      CleaningTakesNothing(o, inhibitAdc, info);
      aborted := DoRounds(inhibitAdc, o);
      if inhibitAdc && !aborted {
        CleanUp();
      }
    }

    /** The end of an inhibited pass: more bytes than a token's are all dropped. */
    method CleanUp()
      requires Valid()
      modifies rcvRing
      ensures Valid()
      ensures Buffered() == if |old(Buffered())| > |CHANTOKEN| then [] else old(Buffered())
    {
      var ringBytes := rcvRing.BytesStored();
      if ringBytes > |CHANTOKEN| {
        var _ := rcvRing.Delete(ringBytes);
      }
    }
  }

  /** Where the loop of check_data stands: the pieces taken off and what the rest gives, or
      has given, make up what the whole buffer gives. */
  ghost predicate Parsed(start: seq<byte>, inhibit: bool, pieces: seq<Piece>, buf: seq<byte>,
                         again: bool, aborted: bool)
  {
    if again then !aborted && Rounds(start, inhibit) == Prepend(pieces, Rounds(buf, inhibit))
    else Rounds(start, inhibit) == Outcome(pieces, buf, aborted)
  }

  lemma ParsedNothing(buf: seq<byte>, inhibit: bool)
    ensures Parsed(buf, inhibit, [], buf, true, false)
  {
    assert [] + Rounds(buf, inhibit).pieces == Rounds(buf, inhibit).pieces;
  }

  lemma RoundThenRest(start: seq<byte>, pieces: seq<Piece>, buf: seq<byte>, inhibit: bool, slotSize: nat)
    requires Parsed(start, inhibit, pieces, buf, true, false)
    requires Fit(StoredImages(Rounds(start, inhibit).pieces), slotSize)
    ensures var r := OneRound(buf, inhibit);
      && Parsed(start, inhibit, pieces + r.pieces, r.rest, r.next == Again, r.next == Abort)
      && Fit(StoredImages(r.pieces), slotSize)
  {
    var r, o := OneRound(buf, inhibit), Rounds(buf, inhibit);
    PrependTwice(pieces, r.pieces, Rounds(r.rest, inhibit));
    StoredImagesAppend(pieces, o.pieces);
    StoredImagesAppend(r.pieces, Rounds(r.rest, inhibit).pieces);
  }

  lemma PrependTwice(a: seq<Piece>, b: seq<Piece>, o: Outcome)
    ensures Prepend(a, Prepend(b, o)) == Prepend(a + b, o)
    ensures Prepend(a, Outcome(b, o.rest, o.aborted)) == Outcome(a + b, o.rest, o.aborted)
  {
    assert a + (b + o.pieces) == a + b + o.pieces;
  }

  /** The clean-up changes only what is left on the ring. */
  lemma CleaningTakesNothing(o: Outcome, inhibit: bool, info: ChannelInfo)
    ensures var c := Cleaned(o, inhibit);
      && c.aborted == o.aborted
      && c.rest == (if inhibit && !o.aborted && |o.rest| > |CHANTOKEN| then [] else o.rest)
      && LastInfo(c.pieces, info) == LastInfo(o.pieces, info) && StoredImages(c.pieces) == StoredImages(o.pieces)
  {
    assert (o.pieces + [Junk(o.rest)])[..|o.pieces|] == o.pieces;
  }

  lemma PacketFields(timegm: seq<byte> -> int, bfr: seq<byte>, len: nat)
    requires HEADERSLEN <= len <= |bfr|
    ensures DecodePktTime(timegm, bfr) == DecodePktTime(timegm, bfr[..len])
    ensures bfr[DATAHDR_POS_PACKETID..HEADERSLEN] == bfr[..len][DATAHDR_POS_PACKETID..HEADERSLEN]
  {
    assert bfr[DATAHDR_POS_TIME..DATAHDR_POS_MSEC] == bfr[..len][DATAHDR_POS_TIME..DATAHDR_POS_MSEC];
    assert bfr[DATAHDR_POS_MSEC..DATAHDR_POS_PACKETID] == bfr[..len][DATAHDR_POS_MSEC..DATAHDR_POS_PACKETID];
  }
}
