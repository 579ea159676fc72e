// One client connection of src/server.c as a state machine, and what holds over all its runs.
module Sender {
  import opened Bytes
  import opened ByteSearch
  import opened ChannelInfo
  import opened SortedCache
  import opened Requests
  import Delivery

  datatype ServerState = Inactive | Init | SendChan | SendAdc | Shutdown

  /** What a readable socket gives: nothing yet, an error or a close, or some bytes. */
  datatype RecvResult = NoBytes | Closed | Arriving(bytes: seq<byte>)

  /** What send accepts: nothing, a broken pipe, a fatal error, or some bytes. */
  datatype SendResult = Blocked | Pipe | Fatal | Sent(bytes: nat)

  /** What one pass over the connection meets: the sockets, the cache, the channel
      information, and the time in the history record, which another connection of the
      same client may have moved. */
  datatype Pass = Pass(recv: RecvResult, writable: bool, send: SendResult, cache: seq<Packet>, info: ChannelInfo,
                       found: real)

  /** struct connectiondata. The last five fields record the past. */
  datatype Conn = Conn(
    state: ServerState, idleTimer: int, rcv: seq<byte>, send: seq<byte>, capacity: nat, lastTime: real,
    enqueued: seq<seq<byte>>, sent: seq<byte>, delivered: seq<Packet>, received: seq<byte>, reported: nat)

  const SRVR_IDLE_TIMEOUT := 150

  /** sdr_pkt_size. */
  function SdrPktSize(c: ChannelInfo): int {
    PREHDRLEN + DATAHDRLEN + c.sps * c.numChannels * (if c.adcType == 4 then 4 else 2) + CRCLEN
  }

  /** The send ring's size in create_connection_data. */
  function SendBfrSize(c: ChannelInfo): int {
    PREHDRLEN + DATAHDRLEN + c.sps * c.numChannels * ADCDATASIZE + 1
  }

  lemma PacketFitsSendRing(c: ChannelInfo)
    requires c.sps >= 0 && c.numChannels >= 0
    ensures SdrPktSize(c) <= SendBfrSize(c)
  {
    assert c.sps * c.numChannels >= 0;
    var samples := c.sps * c.numChannels;
    assert samples * 2 <= samples * 4;
  }

  /** The send ring has room for four bytes a sample: exactly the packet for type 4, and two
      bytes more a sample for the others. */
  lemma PacketSizes(c: ChannelInfo)
    ensures SendBfrSize(c) == 31 + 4 * (c.sps * c.numChannels)
    ensures SdrPktSize(c) == SendBfrSize(c) - if c.adcType == 4 then 0 else 2 * (c.sps * c.numChannels)
  {
  }

  /** A connection just accepted. */
  function Accept(capacity: nat, lastTime: real): Conn {
    Conn(Init, SRVR_IDLE_TIMEOUT, [], [], capacity, lastTime, [], [], [], [], 0)
  }

  /** Bytes put on the receive ring, and check_server_incoming. */
  function Take(c: Conn, got: seq<byte>): Conn {
    var (rest, found) := CheckRequest(c.rcv + got);
    c.(rcv := rest, received := c.received + got, reported := c.reported + (if found then 1 else 0),
       state := if found then SendChan else c.state)
  }

  /** server_rcv_to_ring followed by check_server_incoming. */
  function Receive(c: Conn, r: RecvResult): Conn {
    var free := SERVERRCVBFRSIZE - |c.rcv|;
    if free <= 0 then c
    else match r
      case NoBytes => c
      case Closed => c.(state := Shutdown)
      case Arriving(b) =>
        var got := if |b| <= free then b else b[..free];
        if got == [] then c else Take(c, got)
  }

  function Free(c: Conn): int { c.capacity - |c.send| }

  function Enqueue(c: Conn, frame: seq<byte>): Conn {
    c.(send := c.send + frame, enqueued := c.enqueued + [frame])
  }

  /** put_channel_data; on success the connection goes on to A/D data. */
  function PutChannelData(c: Conn, info: ChannelInfo): Conn {
    if Free(c) >= CHANINFOLEN then Enqueue(c, Print(info)[..CHANINFOLEN]).(state := SendAdc) else c
  }

  /** put_adc_data: the next packet after the last one, if there is one and it fits. */
  function PutAdcData(c: Conn, cache: seq<Packet>): Conn {
    match NextAfter(cache, c.lastTime)
    case None => c
    case Some(p) =>
      if |p.bytes| > Free(c) then c
      else Enqueue(c, p.bytes).(lastTime := p.time, delivered := c.delivered + [p])
  }

  /** What the history record sees of it. */
  lemma PutAdcDataServes(c: Conn, cache: seq<Packet>, start: real)
    requires |c.send| <= c.capacity
    ensures var d := PutAdcData(c, cache);
      Delivery.Serve(Delivery.Reader(cache, c.lastTime, start, c.delivered), Free(c))
      == Delivery.Reader(cache, d.lastTime, start, d.delivered)
  {
  }

  /** The state switch of service_connection. */
  function Switch(c: Conn, i: Pass): Conn {
    match c.state
    case Inactive => c
    case Shutdown => c.(state := Inactive)
    case SendChan => PutChannelData(c, i.info)
    case SendAdc => PutAdcData(c, i.cache)
    case Init => if c.idleTimer <= 0 then c.(state := Shutdown) else c.(idleTimer := c.idleTimer - 1)
  }

  predicate Sends(c: Conn, i: Pass) {
    c.send != [] && i.writable && (c.state == SendChan || c.state == SendAdc)
  }

  /** send_to_client: any prefix may go out. */
  function Transmit(c: Conn, i: Pass): Conn {
    if Sends(c, i) && i.send.Sent? then
      var n := if i.send.bytes <= |c.send| then i.send.bytes else |c.send|;
      c.(send := c.send[n..], sent := c.sent + c.send[..n])
    else c
  }

  function Switched(c: Conn, i: Pass): Conn {
    Switch(Receive(c.(lastTime := i.found), i.recv), i)
  }

  /** service_connection; it ends the program on a fatal send error. */
  function Service(c: Conn, i: Pass): Conn {
    if c.state == Inactive then c else Transmit(Switched(c, i), i)
  }

  predicate Exits(c: Conn, i: Pass) {
    c.state != Inactive && Sends(Switched(c, i), i) && i.send.Fatal?
  }

  function Run(c: Conn, passes: seq<Pass>): Conn {
    if passes == [] then c else Service(Run(c, passes[..|passes| - 1]), passes[|passes| - 1])
  }

  // ----- the invariant -----

  ghost predicate Ascending(ps: seq<Packet>, start: real, last: real) {
    && (forall i, j :: 0 <= i < j < |ps| ==> ps[i].time < ps[j].time)
    && (forall i :: 0 <= i < |ps| ==> start < ps[i].time <= last)
    && start <= last
  }

  /** A frame put on the send ring: a channel text, or the bytes of a delivered packet. */
  ghost predicate IsEnqueued(f: seq<byte>, delivered: seq<Packet>) {
    IsConfigText(f) || exists p :: p in delivered && p.bytes == f
  }

  /** The bytes sent and those on the send ring are whole frames, the first of them channel
      information, and no request is lost. */
  ghost predicate Inv(c: Conn) {
    && c.sent + c.send == Flatten(c.enqueued)
    && |c.send| <= c.capacity
    && (c.enqueued != [] ==> IsConfigText(c.enqueued[0]))
    && (c.state == SendAdc ==> c.enqueued != [])
    && (forall f :: f in c.enqueued ==> IsEnqueued(f, c.delivered))
    && |c.rcv| + |CHANREQUEST| <= SERVERRCVBFRSIZE
    && Accounted(c.received, c.reported, c.rcv)
  }

  /** The channel information of every pass was accepted. */
  ghost predicate AllAccepted(passes: seq<Pass>) {
    forall i :: i in passes ==> Accepted(i.info)
  }

  lemma TakeKeeps(c: Conn, got: seq<byte>)
    requires Inv(c) && |c.rcv + got| <= SERVERRCVBFRSIZE
    ensures Inv(Take(c, got))
  {
    AccountedStep(c.received, c.reported, c.rcv, got);
    RoomForRequest(c.rcv + got);
  }

  lemma ShutdownKeeps(c: Conn)
    requires Inv(c)
    ensures Inv(c.(state := Shutdown))
  {
  }

  lemma ReceiveKeeps(c: Conn, r: RecvResult)
    requires Inv(c)
    ensures Inv(Receive(c, r))
  {
    match r
    case NoBytes =>
    case Closed => ShutdownKeeps(c);
    case Arriving(b) =>
      var free := SERVERRCVBFRSIZE - |c.rcv|;
      TakeKeeps(c, if |b| <= free then b else b[..free]);
  }

  lemma EnqueueKeeps(c: Conn, f: seq<byte>, delivered: seq<Packet>)
    requires Inv(c) && |f| <= Free(c) && IsEnqueued(f, delivered)
    requires forall p :: p in c.delivered ==> p in delivered
    requires c.enqueued == [] ==> IsConfigText(f)
    ensures var d := Enqueue(c, f);
      && d.sent + d.send == Flatten(d.enqueued) && |d.send| <= d.capacity
      && d.enqueued != [] && IsConfigText(d.enqueued[0])
      && forall g :: g in d.enqueued ==> IsEnqueued(g, delivered)
  {
    FlattenSnoc(c.enqueued, f);
    ConcatAssociative(c.sent, c.send, f);
  }

  /** put_channel_data stores all of what sprintf makes of an accepted triple. */
  lemma TextIsWhole(info: ChannelInfo)
    requires Accepted(info)
    ensures Print(info)[..CHANINFOLEN] == Print(info) && IsConfigText(Print(info))
  {
    PrintedIsConfigText(info);
  }

  lemma EnqueueTextKeeps(c: Conn, f: seq<byte>)
    requires Inv(c) && IsConfigText(f) && CHANINFOLEN <= Free(c)
    ensures Inv(Enqueue(c, f).(state := SendAdc))
  {
    EnqueueKeeps(c, f, c.delivered);
  }

  lemma PutChannelDataKeeps(c: Conn, info: ChannelInfo)
    requires Inv(c) && Accepted(info)
    ensures Inv(PutChannelData(c, info))
  {
    TextIsWhole(info);
    if Free(c) >= CHANINFOLEN {
      EnqueueTextKeeps(c, Print(info));
    }
  }

  lemma PutAdcDataKeeps(c: Conn, cache: seq<Packet>)
    requires Inv(c) && c.state == SendAdc
    ensures Inv(PutAdcData(c, cache))
  {
    var next := NextAfter(cache, c.lastTime);
    if next.Some? && |next.value.bytes| <= Free(c) {
      var p := next.value;
      assert p in c.delivered + [p];
      EnqueueKeeps(c, p.bytes, c.delivered + [p]);
    }
  }

  lemma SwitchKeeps(c: Conn, i: Pass)
    requires Inv(c) && Accepted(i.info)
    ensures Inv(Switch(c, i))
  {
    if c.state == SendChan {
      PutChannelDataKeeps(c, i.info);
    } else if c.state == SendAdc {
      PutAdcDataKeeps(c, i.cache);
    }
  }

  lemma TransmitKeeps(c: Conn, i: Pass)
    requires Inv(c)
    ensures Inv(Transmit(c, i))
  {
    if Sends(c, i) && i.send.Sent? {
      var n := if i.send.bytes <= |c.send| then i.send.bytes else |c.send|;
      assert c.sent + c.send == c.sent + c.send[..n] + c.send[n..];
    }
  }

  /** Receiving touches neither what was sent nor what was enqueued. */
  lemma ReceiveOnlyReads(c: Conn, r: RecvResult)
    ensures var d := Receive(c, r);
      d.(state := c.state, rcv := c.rcv, received := c.received, reported := c.reported) == c
  {
  }

  /** Only receiving counts requests. */
  lemma SwitchReportsNothing(c: Conn, i: Pass)
    ensures Switch(c, i).reported == c.reported
  {
  }

  /** The switch puts at most one frame on the send ring: the text of the channel
      information, or the packet that comes next. */
  lemma SwitchEnqueues(c: Conn, i: Pass)
    requires Accepted(i.info)
    ensures var d := Switch(c, i);
      || (d.enqueued == c.enqueued && d.delivered == c.delivered)
      || (d.enqueued == c.enqueued + [Print(i.info)] && d.delivered == c.delivered)
      || (NextAfter(i.cache, c.lastTime).Some? &&
          var p := NextAfter(i.cache, c.lastTime).value;
          d.enqueued == c.enqueued + [p.bytes] && d.delivered == c.delivered + [p])
  {
    if c.state == SendChan {
      PrintedIsConfigText(i.info);
      assert Print(i.info)[..CHANINFOLEN] == Print(i.info);
    }
  }

  lemma ServiceKeeps(c: Conn, i: Pass)
    requires Inv(c) && Accepted(i.info)
    ensures Inv(Service(c, i))
  {
    var d := c.(lastTime := i.found);
    assert Inv(d);
    ReceiveKeeps(d, i.recv);
    SwitchKeeps(Receive(d, i.recv), i);
    TransmitKeeps(Switched(c, i), i);
  }

  /** On every run, whatever other connections do to the history record: the bytes sent and
      those on the send ring are whole frames, the first of them channel information, and no
      request is lost. */
  lemma {:induction false} RunKeeps(c: Conn, passes: seq<Pass>)
    requires Inv(c) && AllAccepted(passes)
    ensures Inv(Run(c, passes))
  {
    if passes != [] {
      assert passes[|passes| - 1] in passes;
      RunKeeps(c, passes[..|passes| - 1]);
      ServiceKeeps(Run(c, passes[..|passes| - 1]), passes[|passes| - 1]);
    }
  }

  lemma AcceptedConnection(capacity: nat, start: real)
    ensures Inv(Accept(capacity, start))
  {
  }

  // ----- the order of delivery -----

  /** A pass delivers at most one packet, the next one after the time it finds. */
  lemma ServiceDelivers(c: Conn, i: Pass)
    ensures var d := Service(c, i);
      || (d.delivered == c.delivered && (d.lastTime == c.lastTime || d.lastTime == i.found))
      || (NextAfter(i.cache, i.found).Some? &&
          var p := NextAfter(i.cache, i.found).value;
          d.delivered == c.delivered + [p] && d.lastTime == p.time && i.found < p.time)
  {
    ReceiveOnlyReads(c.(lastTime := i.found), i.recv);
    var r := Receive(c.(lastTime := i.found), i.recv);
    TransmitOnlySends(Switch(r, i), i);
  }

  /** No pass finds the record set back since the one before. */
  ghost predicate NotSetBack(c: Conn, passes: seq<Pass>) {
    passes == [] ||
    (NotSetBack(c, passes[..|passes| - 1]) && Run(c, passes[..|passes| - 1]).lastTime <= passes[|passes| - 1].found)
  }

  lemma AscendingOnward(ps: seq<Packet>, start: real, last: real, found: real, p: Packet)
    requires Ascending(ps, start, last) && last <= found
    ensures Ascending(ps, start, found)
    ensures found < p.time ==> Ascending(ps + [p], start, p.time)
  {
  }

  /** On every stretch of a run in which the record is not set back, the times delivered
      strictly increase. */
  lemma {:induction false} RunAscends(c: Conn, passes: seq<Pass>)
    requires NotSetBack(c, passes)
    ensures var d := Run(c, passes);
      c.delivered <= d.delivered && Ascending(d.delivered[|c.delivered|..], c.lastTime, d.lastTime)
  {
    if passes != [] {
      var b, i := Run(c, passes[..|passes| - 1]), passes[|passes| - 1];
      RunAscends(c, passes[..|passes| - 1]);
      ServiceDelivers(b, i);
      var d, n := Service(b, i), |c.delivered|;
      if d.delivered == b.delivered {
        AscendingOnward(b.delivered[n..], c.lastTime, b.lastTime, d.lastTime, Packet(0.0, 0, false, []));
      } else {
        var p := NextAfter(i.cache, i.found).value;
        AscendingOnward(b.delivered[n..], c.lastTime, b.lastTime, i.found, p);
        assert d.delivered[n..] == b.delivered[n..] + [p];
      }
    }
  }

  // ----- progress -----

  /** The client neither closes nor asks again. The socket may block. */
  ghost predicate Listening(c: Conn, i: Pass) {
    c.state == SendAdc && Receive(c, i.recv).state == SendAdc
  }

  /** The socket takes some bytes. */
  predicate Moves(i: Pass) {
    i.writable && i.send.Sent? && i.send.bytes > 0
  }

  function Moving(passes: seq<Pass>): nat {
    if passes == [] then 0 else Moving(passes[..|passes| - 1]) + (if Moves(passes[|passes| - 1]) then 1 else 0)
  }

  lemma ReceiveIgnoresTime(c: Conn, r: RecvResult, t: real)
    ensures Receive(c.(lastTime := t), r) == Receive(c, r).(lastTime := t)
  {
    match r
    case NoBytes =>
    case Closed =>
    case Arriving(b) =>
      var free := SERVERRCVBFRSIZE - |c.rcv|;
      if free > 0 {
        TakeIgnoresTime(c, if |b| <= free then b else b[..free], t);
      }
  }

  lemma TakeIgnoresTime(c: Conn, got: seq<byte>, t: real)
    ensures Take(c.(lastTime := t), got) == Take(c, got).(lastTime := t)
  {
  }

  lemma TransmitMakesRoom(c: Conn, i: Pass)
    requires c.state == SendAdc
    ensures var d := Transmit(c, i);
      |d.send| <= |c.send| && (Moves(i) ==> if c.send == [] then d == c else |d.send| < |c.send|)
  {
  }

  /** Such a pass puts the next packet on the ring if it fits, and makes some room if the
      socket takes bytes. */
  lemma ListeningPass(c: Conn, i: Pass)
    requires Listening(c, i) && |c.send| <= c.capacity
    ensures var d, next := Service(c, i), NextAfter(i.cache, i.found);
      var fits := next.Some? && |next.value.bytes| <= Free(c);
      var waiting := |c.send| + (if fits then |next.value.bytes| else 0);
      && d.state == SendAdc && d.capacity == c.capacity
      && d.delivered == (if fits then c.delivered + [next.value] else c.delivered)
      && d.lastTime == (if fits then next.value.time else i.found)
      && |d.send| <= d.capacity && |d.send| <= waiting && (Moves(i) && waiting > 0 ==> |d.send| < waiting)
  {
    ReceiveIgnoresTime(c, i.recv, i.found);
    var r := Receive(c.(lastTime := i.found), i.recv);
    ReceiveOnlyReads(c.(lastTime := i.found), i.recv);
    var p := PutAdcData(r, i.cache);
    assert Service(c, i) == Transmit(p, i);
    TransmitMakesRoom(p, i);
    TransmitOnlySends(p, i);
  }

  /** A packet is waiting, and it is no longer than the ring. */
  ghost predicate Flows(c: Conn, i: Pass) {
    && Listening(c, i)
    && NextAfter(i.cache, i.found).Some? && |NextAfter(i.cache, i.found).value.bytes| <= c.capacity
  }

  ghost predicate AllFlow(c: Conn, passes: seq<Pass>) {
    passes == [] ||
    (AllFlow(c, passes[..|passes| - 1]) && Flows(Run(c, passes[..|passes| - 1]), passes[|passes| - 1]))
  }

  /** The "won't fit" branch cannot persist: within one pass that moves bytes more than there
      are bytes waiting on the ring, a packet is delivered; passes that block do not matter. */
  lemma {:induction false} WontFitPasses(c: Conn, passes: seq<Pass>)
    requires |c.send| <= c.capacity && AllFlow(c, passes)
    ensures var d := Run(c, passes);
      && d.capacity == c.capacity && |d.send| <= d.capacity
      && (|c.delivered| < |d.delivered| || (d.delivered == c.delivered && |d.send| + Moving(passes) <= |c.send|))
    ensures Moving(passes) > |c.send| ==> |c.delivered| < |Run(c, passes).delivered|
  {
    if passes != [] {
      WontFitPasses(c, passes[..|passes| - 1]);
      ListeningPass(Run(c, passes[..|passes| - 1]), passes[|passes| - 1]);
    }
  }

  // ----- catching up -----

  /** Passes that read an unchanging cache through a record that nobody else moves. */
  ghost predicate AllReading(c: Conn, passes: seq<Pass>, s: seq<Packet>) {
    passes == [] ||
    var b, i := Run(c, passes[..|passes| - 1]), passes[|passes| - 1];
    AllReading(c, passes[..|passes| - 1], s) && Listening(b, i) && i.cache == s && i.found == b.lastTime
  }

  function ServingOf(c: Conn): Delivery.Event {
    Delivery.Served(if Free(c) >= 0 then Free(c) else 0)
  }

  /** The room that each of the passes serves the record with. */
  function Servings(c: Conn, passes: seq<Pass>): seq<Delivery.Event> {
    if passes == [] then [] else Servings(c, passes[..|passes| - 1]) + [ServingOf(Run(c, passes[..|passes| - 1]))]
  }

  lemma ListeningServes(c: Conn, i: Pass, start: real, n: nat)
    requires Listening(c, i) && |c.send| <= c.capacity && i.found == c.lastTime
    ensures var d := Service(c, i);
      Delivery.Step(Delivery.Reader(i.cache, c.lastTime, start, c.delivered), ServingOf(c), n)
      == Delivery.Reader(i.cache, d.lastTime, start, d.delivered)
  {
    ListeningPass(c, i);
    PutAdcDataServes(c, i.cache, start);
  }

  lemma OneMoreServing(r: Delivery.Reader, events: seq<Delivery.Event>, e: Delivery.Event, n: nat)
    ensures Delivery.Run(r, events + [e], n) == Delivery.Step(Delivery.Run(r, events, n), e, n)
    ensures Delivery.OnlyServed(events) && e.Served? ==> Delivery.OnlyServed(events + [e])
  {
    assert (events + [e])[..|events|] == events;
  }

  /** Such passes are servings of a reader of that cache. */
  lemma {:induction false} ReadingIsServing(c: Conn, passes: seq<Pass>, s: seq<Packet>, start: real, n: nat)
    requires |c.send| <= c.capacity && AllReading(c, passes, s)
    ensures var d := Run(c, passes);
      && d.capacity == c.capacity && |d.send| <= d.capacity && Delivery.OnlyServed(Servings(c, passes))
      && Delivery.Run(Delivery.Reader(s, c.lastTime, start, c.delivered), Servings(c, passes), n)
         == Delivery.Reader(s, d.lastTime, start, d.delivered)
  {
    if passes != [] {
      var b, i := Run(c, passes[..|passes| - 1]), passes[|passes| - 1];
      ReadingIsServing(c, passes[..|passes| - 1], s, start, n);
      ListeningPass(b, i);
      ListeningServes(b, i, start, n);
      OneMoreServing(Delivery.Reader(s, c.lastTime, start, c.delivered), Servings(c, passes[..|passes| - 1]),
                     ServingOf(b), n);
    }
  }

  /** The packets before the first one that is longer than the ring. */
  function Fitting(ps: seq<Packet>, capacity: nat): seq<Packet> {
    if ps == [] || |ps[0].bytes| > capacity then [] else [ps[0]] + Fitting(ps[1..], capacity)
  }

  function Cost(ps: seq<Packet>): nat {
    if ps == [] then 0 else |ps[0].bytes| + 1 + Cost(ps[1..])
  }

  function Deliverable(c: Conn, s: seq<Packet>): seq<Packet> {
    Fitting(Delivery.Ahead(s, c.lastTime), c.capacity)
  }

  /** At most so many passes that move bytes until everything deliverable has been sent. */
  function Due(c: Conn, s: seq<Packet>): nat {
    |c.send| + Cost(Deliverable(c, s))
  }

  lemma FittingFirst(p: Packet, rest: seq<Packet>, capacity: nat)
    ensures var later := Fitting(rest, capacity);
      && Fitting([p] + rest, capacity) == (if |p.bytes| > capacity then [] else [p] + later)
      && Cost([p] + later) == |p.bytes| + 1 + Cost(later)
  {
    assert ([p] + rest)[1..] == rest;
    assert ([p] + Fitting(rest, capacity))[1..] == Fitting(rest, capacity);
  }

  lemma ReadingPass(c: Conn, i: Pass)
    requires Listening(c, i) && |c.send| <= c.capacity && i.found == c.lastTime
    ensures var d := Service(c, i);
      && d.delivered + Deliverable(d, i.cache) == c.delivered + Deliverable(c, i.cache)
      && Due(d, i.cache) <= Due(c, i.cache)
      && (Moves(i) ==> Due(d, i.cache) < Due(c, i.cache) || Due(d, i.cache) == 0)
  {
    var d, next := Service(c, i), NextAfter(i.cache, i.found);
    ListeningPass(c, i);
    if next.Some? {
      var p, rest := next.value, Delivery.Ahead(i.cache, next.value.time);
      FittingFirst(p, rest, c.capacity);
      ConcatAssociative(c.delivered, [p], Fitting(rest, c.capacity));
      assert Delivery.Ahead(i.cache, i.found) == [p] + rest;
    }
  }

  /** With eventual room on the send ring, however often the socket blocks, an unchanging
      cache is delivered up to the first packet longer than the ring, each packet once and in
      order, and then all is sent. */
  lemma {:induction false} CatchesUp(c: Conn, passes: seq<Pass>, s: seq<Packet>)
    requires |c.send| <= c.capacity && AllReading(c, passes, s)
    ensures var d := Run(c, passes);
      && d.capacity == c.capacity && |d.send| <= d.capacity
      && d.delivered + Deliverable(d, s) == c.delivered + Deliverable(c, s)
      && (Due(d, s) + Moving(passes) <= Due(c, s) || Due(d, s) == 0)
    ensures Moving(passes) >= Due(c, s) ==>
      var d := Run(c, passes); d.delivered == c.delivered + Deliverable(c, s) && d.send == []
  {
    if passes != [] {
      var b, i := Run(c, passes[..|passes| - 1]), passes[|passes| - 1];
      CatchesUp(c, passes[..|passes| - 1], s);
      ListeningPass(b, i);
      ReadingPass(b, i);
    }
    if Due(Run(c, passes), s) == 0 {
      NothingDue(Run(c, passes), s);
    }
  }

  lemma NothingDue(c: Conn, s: seq<Packet>)
    requires Due(c, s) == 0
    ensures c.send == [] && c.delivered + Deliverable(c, s) == c.delivered
  {
  }

  lemma {:induction false} FittingIsPrefix(ps: seq<Packet>, capacity: nat)
    ensures Fitting(ps, capacity) <= ps
    ensures Fitting(ps, capacity) == ps <==> forall p :: p in ps ==> |p.bytes| <= capacity
  {
    if ps != [] {
      FittingIsPrefix(ps[1..], capacity);
      assert ps == [ps[0]] + ps[1..];
    }
  }

  /** The deliverable packets are all the newer ones exactly when those are a millisecond
      apart and fit the ring. */
  lemma DeliverableIsNewerIff(c: Conn, s: seq<Packet>)
    requires Sorted(s)
    ensures var newer := Delivery.Newer(s, c.lastTime);
      Deliverable(c, s) == newer <==> Delivery.Spaced(newer) && forall p :: p in newer ==> |p.bytes| <= c.capacity
  {
    Delivery.AheadIsNewerIff(s, c.lastTime);
    FittingIsPrefix(Delivery.Ahead(s, c.lastTime), c.capacity);
  }

  // ----- how a connection starts and ends -----

  /** Which of the arriving bytes a pass takes: those that fit the receive ring. */
  function Incoming(c: Conn, r: RecvResult): seq<byte>
    requires |c.rcv| <= SERVERRCVBFRSIZE
  {
    if !r.Arriving? then []
    else if |c.rcv| + |r.bytes| <= SERVERRCVBFRSIZE then r.bytes
    else r.bytes[..SERVERRCVBFRSIZE - |c.rcv|]
  }

  /** Bytes come in, and with those on the ring they hold a request. */
  ghost predicate Asks(c: Conn, r: RecvResult)
    requires |c.rcv| <= SERVERRCVBFRSIZE
  {
    Incoming(c, r) != [] && Holds(c.rcv + Incoming(c, r))
  }

  /** A pass over a connection in use takes all the bytes that fit, and reports a request
      exactly when the client asks; in whatever state it is. */
  lemma PassTakes(c: Conn, i: Pass)
    requires c.state != Inactive && |c.rcv| <= SERVERRCVBFRSIZE
    ensures var d := Service(c, i);
      && d.received == c.received + Incoming(c, i.recv)
      && d.reported == c.reported + (if Asks(c, i.recv) then 1 else 0)
  {
    var r := Receive(c.(lastTime := i.found), i.recv);
    CheckReportsIff(c.rcv + Incoming(c, i.recv));
    SwitchReportsNothing(r, i);
    TransmitOnlySends(Switch(r, i), i);
  }

  /** What the passes of a run take, one after the other. */
  function Arrivals(c: Conn, passes: seq<Pass>): seq<seq<byte>> {
    if passes == [] then []
    else
      var b, r := Run(c, passes[..|passes| - 1]), passes[|passes| - 1].recv;
      Arrivals(c, passes[..|passes| - 1]) +
      [if b.state != Inactive && |b.rcv| <= SERVERRCVBFRSIZE then Incoming(b, r) else []]
  }

  lemma {:induction false} RunTakes(c: Conn, passes: seq<Pass>)
    requires Inv(c) && AllAccepted(passes)
    ensures Run(c, passes).received == c.received + Flatten(Arrivals(c, passes))
  {
    if passes == [] {
      ReceivedNothing(c.received);
    } else {
      var before, i := passes[..|passes| - 1], passes[|passes| - 1];
      RunTakes(c, before);
      RunKeeps(c, before);
      var b := Run(c, before);
      if b.state != Inactive {
        PassTakes(b, i);
      }
      var got := if b.state != Inactive && |b.rcv| <= SERVERRCVBFRSIZE then Incoming(b, i.recv) else [];
      FlattenSnoc(Arrivals(c, before), got);
      ConcatAssociative(c.received, Flatten(Arrivals(c, before)), got);
      ReceivedNothing(b.received);
    }
  }

  lemma ReceivedNothing(x: seq<byte>)
    ensures x + [] == x && x + Flatten([]) == x
  {
  }

  /** A request is answered: the channel information goes on the send ring in the same pass,
      or the connection keeps trying until there is room. */
  lemma RequestAnswered(c: Conn, i: Pass)
    requires Accepted(i.info) && c.state != Inactive && |c.rcv| <= SERVERRCVBFRSIZE && Asks(c, i.recv)
    ensures var d := Service(c, i);
      || (d.state == SendAdc && d.enqueued == c.enqueued + [Print(i.info)])
      || (d.state == SendChan && d.enqueued == c.enqueued && Free(c) < CHANINFOLEN)
  {
    var r := Receive(c.(lastTime := i.found), i.recv);
    ReceiveOnlyReads(c.(lastTime := i.found), i.recv);
    CheckReportsIff(c.rcv + Incoming(c, i.recv));
    TransmitOnlySends(Switch(r, i), i);
    assert r.state == SendChan;
    TextIsWhole(i.info);
  }

  ghost predicate NoneCloses(passes: seq<Pass>) {
    forall i :: i in passes ==> i.recv != Closed
  }

  /** Such a pass delivers no packet. */
  lemma AsksOnlyText(c: Conn, i: Pass)
    requires c.state != Inactive && |c.rcv| <= SERVERRCVBFRSIZE && Asks(c, i.recv)
    ensures var d := Service(c, i); d.delivered == c.delivered && d.lastTime == i.found
  {
    var r := Receive(c.(lastTime := i.found), i.recv);
    ReceiveOnlyReads(c.(lastTime := i.found), i.recv);
    CheckReportsIff(c.rcv + Incoming(c, i.recv));
    TransmitOnlySends(Switch(r, i), i);
    assert r.state == SendChan;
  }

  /** A connection just accepted on which the request arrives. */
  lemma FreshAsks(capacity: nat, start: real, i: Pass)
    requires Accepted(i.info) && capacity >= CHANINFOLEN && i.recv == Arriving(CHANREQUEST) && i.found == start
    ensures var c := Service(Accept(capacity, start), i);
      c.state == SendAdc && c.enqueued == [Print(i.info)] && c.delivered == [] && c.lastTime == start
  {
    var c := Accept(capacity, start);
    NothingOnRing(c, i.recv);
    RequestAnswered(c, i);
    AsksOnlyText(c, i);
    assert c.enqueued + [Print(i.info)] == [Print(i.info)];
  }

  lemma NothingOnRing(c: Conn, r: RecvResult)
    requires c.rcv == [] && r == Arriving(CHANREQUEST)
    ensures Asks(c, r)
  {
    assert c.rcv + Incoming(c, r) == CHANREQUEST;
    RequestItself();
  }

  lemma RequestItself()
    ensures Holds(CHANREQUEST)
  {
    assert OccursAt(CHANREQUEST, CHANREQUEST, 0);
  }

  /** A pass of a connection that waits for room for the text. */
  lemma WaitingPass(c: Conn, i: Pass)
    requires c.state == SendChan && i.recv != Closed && Accepted(i.info) && |c.send| <= c.capacity
    ensures var d := Service(c, i);
      if Free(c) >= CHANINFOLEN then d.enqueued == c.enqueued + [Print(i.info)]
      else && d.enqueued == c.enqueued && d.state == SendChan && d.capacity == c.capacity && |d.send| <= |c.send|
           && (Moves(i) && c.send != [] ==> |d.send| < |c.send|)
  {
    var r := Receive(c.(lastTime := i.found), i.recv);
    ReceiveOnlyReads(c.(lastTime := i.found), i.recv);
    assert r.state == SendChan;
    TextIsWhole(i.info);
    var p := PutChannelData(r, i.info);
    assert Service(c, i) == Transmit(p, i);
    TransmitOnlySends(p, i);
  }

  /** Some pass of the run put the text of its channel information on the send ring. */
  ghost predicate Answered(c: Conn, passes: seq<Pass>) {
    exists k :: 0 <= k < |passes| && TextAt(c, passes, k)
  }

  ghost predicate TextAt(c: Conn, passes: seq<Pass>, k: nat)
    requires k < |passes|
  {
    Run(c, passes[..k + 1]).enqueued == c.enqueued + [Print(passes[k].info)]
  }

  lemma StaysAnswered(c: Conn, passes: seq<Pass>, i: Pass)
    requires Answered(c, passes)
    ensures Answered(c, passes + [i])
  {
    var k :| 0 <= k < |passes| && TextAt(c, passes, k);
    assert (passes + [i])[..k + 1] == passes[..k + 1];
    assert TextAt(c, passes + [i], k);
  }

  /** Since it was c the connection has only drained its send ring, at least a byte for each
      pass that moved some. */
  ghost predicate Waits(c: Conn, d: Conn, moved: nat) {
    && d.state == SendChan && d.enqueued == c.enqueued && d.capacity == c.capacity
    && |d.send| <= d.capacity && |d.send| + moved <= |c.send|
  }

  lemma WaitsOn(c: Conn, b: Conn, i: Pass, moved: nat)
    requires Waits(c, b, moved) && CHANINFOLEN <= c.capacity && Free(b) < CHANINFOLEN
    requires i.recv != Closed && Accepted(i.info)
    ensures Waits(c, Service(b, i), moved + if Moves(i) then 1 else 0)
  {
    WaitingPass(b, i);
  }

  lemma AnswersNow(c: Conn, before: seq<Pass>, i: Pass, moved: nat)
    requires Waits(c, Run(c, before), moved) && CHANINFOLEN <= Free(Run(c, before))
    requires i.recv != Closed && Accepted(i.info)
    ensures Answered(c, before + [i])
  {
    var passes := before + [i];
    WaitingPass(Run(c, before), i);
    assert passes[..|before| + 1] == passes && passes[..|before|] == before;
    assert TextAt(c, passes, |before|);
  }

  /** The answer is not put off for ever: a connection that waits for room drains its send
      ring, and within one pass that moves bytes more than are waiting the text is on it. */
  lemma {:induction false} AnsweredInTime(c: Conn, passes: seq<Pass>)
    requires c.state == SendChan && CHANINFOLEN <= c.capacity && |c.send| <= c.capacity
    requires NoneCloses(passes) && AllAccepted(passes)
    ensures Answered(c, passes) || Waits(c, Run(c, passes), Moving(passes))
    ensures Moving(passes) > |c.send| ==> Answered(c, passes)
  {
    if passes != [] {
      var before, i := passes[..|passes| - 1], passes[|passes| - 1];
      assert i in passes && passes == before + [i];
      AnsweredInTime(c, before);
      if Answered(c, before) {
        StaysAnswered(c, before, i);
      } else if Free(Run(c, before)) >= CHANINFOLEN {
        AnswersNow(c, before, i, Moving(before));
      } else {
        WaitsOn(c, Run(c, before), i, Moving(before));
      }
    }
  }

  lemma TransmitOnlySends(c: Conn, i: Pass)
    ensures var d := Transmit(c, i); d.(send := c.send, sent := c.sent) == c
  {
  }

  /** A close or an error on reading ends the connection in the same pass, with nothing more
      enqueued or sent. */
  lemma ClosedEnds(c: Conn, i: Pass)
    requires Inv(c) && c.state != Inactive && i.recv == Closed
    ensures var d := Service(c, i); d.state == Inactive && d.enqueued == c.enqueued && d.sent == c.sent
  {
  }

  lemma SilentPass(c: Conn, i: Pass)
    requires c.enqueued == [] && c.send == [] && c.sent == [] && |c.rcv| + |CHANREQUEST| <= SERVERRCVBFRSIZE
    requires c.state in {Init, Shutdown, Inactive} && Service(c, i).reported == c.reported
    ensures var d := Service(c, i);
      && d.enqueued == [] && d.send == [] && d.sent == [] && |d.rcv| + |CHANREQUEST| <= SERVERRCVBFRSIZE
      && d.state == (if c.state != Init || i.recv == Closed then Inactive
                     else if c.idleTimer <= 0 then Shutdown else Init)
      && (d.state == Init ==> d.idleTimer == c.idleTimer - 1)
  {
    if c.state != Inactive {
      var r := Receive(c.(lastTime := i.found), i.recv);
      SwitchReportsNothing(r, i);
      TransmitOnlySends(Switch(r, i), i);
    }
  }

  lemma ReportedGrows(c: Conn, i: Pass)
    ensures c.reported <= Service(c, i).reported
  {
    SwitchReportsNothing(Receive(c.(lastTime := i.found), i.recv), i);
    TransmitOnlySends(Switched(c, i), i);
  }

  /** A client that never asks, whatever else it sends, gets nothing and is dropped: idle for
      150 passes, then shut down in the next and closed in the one after, or
      at once when it closes. */
  lemma {:induction false} SilentClientDropped(capacity: nat, start: real, passes: seq<Pass>)
    requires Run(Accept(capacity, start), passes).reported == 0
    ensures var c, k := Run(Accept(capacity, start), passes), |passes|;
      && c.enqueued == [] && c.sent == [] && c.send == [] && |c.rcv| + |CHANREQUEST| <= SERVERRCVBFRSIZE
      && c.state in {Init, Shutdown, Inactive}
      && (c.state == Init ==> k <= 150 && c.idleTimer == 150 - k)
      && (k > 151 ==> c.state == Inactive)
      && (NoneCloses(passes) ==>
            c.state == if k <= 150 then Init else if k == 151 then Shutdown else Inactive)
  {
    if passes != [] {
      var b, i := Run(Accept(capacity, start), passes[..|passes| - 1]), passes[|passes| - 1];
      ReportedGrows(b, i);
      SilentClientDropped(capacity, start, passes[..|passes| - 1]);
      SilentPass(b, i);
      assert i in passes;
    }
  }
}
