// The whole data path: an upstream byte stream, the decoder, the cache, one connection, and the
// decoder of the client that connected.
module Pipeline {
  import opened Bytes
  import opened ChannelInfo
  import opened FrameDecoder
  import opened FrameStream
  import opened SortedCache
  import Client
  import Delivery
  import H = Handshake
  import S = Sender

  type Calendar = seq<byte> -> int

  /** The client thread receives a chunk and decodes it; it stores one of the packets decoded,
      each under a lock of its own; or it connects again, which empties its ring. The server
      thread makes one pass over the connection, whose history record it finds at some time,
      where another connection of the same client may have put it; a client connects; or main
      reallocates the cache, which ends all connections. */
  datatype Event =
    | FromUpstream(chunk: seq<byte>, inhibitAdc: bool, packets: seq<Packet>)
    | Stored
    | UpstreamReset
    | ToClient(recv: S.RecvResult, writable: bool, send: S.SendResult, info: ChannelInfo, found: real)
    | Connected(capacity: nat, start: real)
    | Reallocated

  /** upstream, pieces and offered record all bytes received, all that was taken off the
      ring, and all packets stored; since says how many of those were stored before the
      last reallocation, and pending are the packets decoded and still to be stored. The
      record was at start when the connection was accepted or it was last set back, and mark
      packets had then been delivered. */
  datatype World = World(upstream: seq<byte>, ring: seq<byte>, pieces: seq<Piece>, pending: seq<Packet>,
                         offered: seq<Packet>, since: nat, cache: seq<Packet>, conn: S.Conn, start: real, mark: nat)

  const NO_CONNECTION := S.Accept(0, 0.0).(state := S.Inactive)
  const INITIAL := World([], [], [], [], [], 0, [], NO_CONNECTION, 0.0, 0)

  function PassOf(cache: seq<Packet>, e: Event): S.Pass
    requires e.ToClient?
  {
    S.Pass(e.recv, e.writable, e.send, cache, e.info, e.found)
  }

  function Receive(w: World, chunk: seq<byte>, inhibitAdc: bool): Outcome {
    CheckData(w.ring + chunk, inhibitAdc)
  }

  /** The record is found before the time it was left at. */
  predicate SetBack(w: World, e: Event) {
    e.ToClient? && e.found < w.conn.lastTime
  }

  function Step(w: World, e: Event, n: nat): World {
    match e
    case FromUpstream(chunk, inhibitAdc, packets) =>
      var o := Receive(w, chunk, inhibitAdc);
      w.(upstream := w.upstream + chunk, ring := o.rest, pieces := w.pieces + o.pieces,
         pending := w.pending + packets)
    case Stored =>
      if w.pending == [] then w
      else
        var p := w.pending[0];
        w.(pending := w.pending[1..], offered := w.offered + [p], cache := Insert(w.cache, p, n).0)
    case UpstreamReset => w.(ring := [], pieces := w.pieces + Dropped(w.ring, |w.ring|))
    case ToClient(_, _, _, _, found) =>
      w.(conn := S.Service(w.conn, PassOf(w.cache, e)),
         start := if SetBack(w, e) then found else w.start,
         mark := if SetBack(w, e) then |w.conn.delivered| else w.mark)
    case Connected(capacity, start) => w.(conn := S.Accept(capacity, start), start := start, mark := 0)
    case Reallocated => w.(since := |w.offered|, cache := [], conn := NO_CONNECTION, start := 0.0, mark := 0)
  }

  /** The chunk fits the ring, the decoder does not abort, and the packets to store are those
      of the frames decoded; the channel information was accepted. */
  ghost predicate Possible(w: World, e: Event, timegm: Calendar) {
    match e
    case FromUpstream(chunk, inhibitAdc, packets) =>
      && |w.ring| + |chunk| <= BFRSIZE && !Receive(w, chunk, inhibitAdc).aborted
      && Client.PacketsFor(timegm, packets, StoredImages(Receive(w, chunk, inhibitAdc).pieces))
    case ToClient(_, _, _, info, _) => Accepted(info)
    case _ => true
  }

  function Runs(w: World, events: seq<Event>, n: nat): World {
    if events == [] then w else Step(Runs(w, events[..|events| - 1], n), events[|events| - 1], n)
  }

  ghost predicate AllPossible(w: World, events: seq<Event>, n: nat, timegm: Calendar) {
    events == [] ||
    (AllPossible(w, events[..|events| - 1], n, timegm) &&
     Possible(Runs(w, events[..|events| - 1], n), events[|events| - 1], timegm))
  }

  /** What makes the passes possible: in every schedule of the three threads, the server, when
      it serves, prints channel information that was accepted. */
  lemma ServedPassIsPossible(w: World, e: Event, timegm: Calendar, steps: seq<H.Step>, s: H.State)
    requires H.Schedule(steps) && s == H.Run(steps) && s.server.Serving?
    requires e.ToClient? && e.info == s.chanInfo
    ensures Possible(w, e, timegm)
  {
    H.ServesAccepted(steps, s);
  }

  function Images(ps: seq<Packet>): seq<seq<byte>> {
    if ps == [] then [] else Images(ps[..|ps| - 1]) + [ps[|ps| - 1].bytes]
  }

  /** A packet made of a whole, checksummed A/D data frame that was taken off the ring. */
  ghost predicate Genuine(p: Packet, pieces: seq<Piece>) {
    Data(p.bytes) in pieces && IsStored(Data(p.bytes)) && IsFrame(p.bytes) && |p.bytes| <= BFRSIZE
  }

  ghost predicate Inv(w: World, n: nat, timegm: Calendar) {
    && S.Inv(w.conn)
    && w.mark <= |w.conn.delivered| && S.Ascending(w.conn.delivered[w.mark..], w.start, w.conn.lastTime)
    && Raw(w.pieces) + w.ring == w.upstream
    && PiecesOk(w.pieces)
    && Client.PacketsFor(timegm, w.offered + w.pending, StoredImages(w.pieces))
    && w.since <= |w.offered| && w.cache == Run(w.offered[w.since..], n)
    && (forall p :: p in w.offered + w.pending ==> Genuine(p, w.pieces))
    && (forall p :: p in w.conn.delivered ==> p in w.offered)
    && StoredFrames(w.conn.enqueued) == Images(w.conn.delivered)
  }

  // ----- upstream events -----

  lemma {:induction false} StoredImageInPieces(ps: seq<Piece>, i: nat)
    requires i < |StoredImages(ps)|
    ensures Data(StoredImages(ps)[i]) in ps && IsStored(Data(StoredImages(ps)[i]))
  {
    var before := ps[..|ps| - 1];
    if i < |StoredImages(before)| {
      StoredImageInPieces(before, i);
    }
  }

  lemma {:induction false} PieceNoLonger(ps: seq<Piece>, p: Piece)
    requires p in ps
    ensures |p.bytes| <= |Raw(ps)|
  {
    if p != ps[|ps| - 1] {
      assert ps == ps[..|ps| - 1] + [ps[|ps| - 1]];
      PieceNoLonger(ps[..|ps| - 1], p);
    }
  }

  lemma StoredAreGenuine(buf: seq<byte>, inhibit: bool, packets: seq<Packet>, timegm: Calendar, p: Packet)
    requires |buf| <= BFRSIZE && p in packets
    requires Client.PacketsFor(timegm, packets, StoredImages(CheckData(buf, inhibit).pieces))
    ensures Genuine(p, CheckData(buf, inhibit).pieces)
  {
    var ps := CheckData(buf, inhibit).pieces;
    var i :| 0 <= i < |packets| && packets[i] == p;
    assert Client.PacketFor(timegm, packets[i], StoredImages(ps)[i]);
    StoredImageInPieces(ps, i);
    CheckDataOk(buf, inhibit);
    PieceNoLonger(ps, Data(p.bytes));
  }

  lemma UpstreamBytes(ps: seq<Piece>, ring: seq<byte>, upstream: seq<byte>, chunk: seq<byte>,
                      qs: seq<Piece>, rest: seq<byte>)
    requires PiecesOk(ps) && Raw(ps) + ring == upstream
    requires PiecesOk(qs) && Raw(qs) + rest == ring + chunk
    ensures PiecesOk(ps + qs) && Raw(ps + qs) + rest == upstream + chunk
  {
    assert Raw(ps) + (ring + chunk) == upstream + chunk;
    JoinOk(ps, qs, upstream + chunk, ring + chunk, rest);
  }

  lemma UpstreamPackets(w: World, ps: seq<Piece>, packets: seq<Packet>, timegm: Calendar)
    requires Client.PacketsFor(timegm, w.offered + w.pending, StoredImages(w.pieces))
    requires Client.PacketsFor(timegm, packets, StoredImages(ps))
    ensures Client.PacketsFor(timegm, w.offered + (w.pending + packets), StoredImages(w.pieces + ps))
  {
    StoredImagesAppend(w.pieces, ps);
    ConcatAssociative(w.offered, w.pending, packets);
  }

  lemma AllStayGenuine(w: World, chunk: seq<byte>, inhibit: bool, packets: seq<Packet>, timegm: Calendar)
    requires |w.ring + chunk| <= BFRSIZE && forall p :: p in w.offered + w.pending ==> Genuine(p, w.pieces)
    requires Client.PacketsFor(timegm, packets, StoredImages(Receive(w, chunk, inhibit).pieces))
    ensures forall p :: p in w.offered + (w.pending + packets) ==>
      Genuine(p, w.pieces + Receive(w, chunk, inhibit).pieces)
  {
    forall p | p in w.offered + (w.pending + packets)
      ensures Genuine(p, w.pieces + Receive(w, chunk, inhibit).pieces)
    {
      if p in packets {
        StoredAreGenuine(w.ring + chunk, inhibit, packets, timegm, p);
      } else {
        assert p in w.offered + w.pending;
      }
    }
  }

  lemma UpstreamKeeps(w: World, e: Event, n: nat, timegm: Calendar)
    requires e.FromUpstream? && Inv(w, n, timegm) && Possible(w, e, timegm)
    ensures Inv(Step(w, e, n), n, timegm)
  {
    var o := Receive(w, e.chunk, e.inhibitAdc);
    CheckDataOk(w.ring + e.chunk, e.inhibitAdc);
    UpstreamBytes(w.pieces, w.ring, w.upstream, e.chunk, o.pieces, o.rest);
    UpstreamPackets(w, o.pieces, e.packets, timegm);
    AllStayGenuine(w, e.chunk, e.inhibitAdc, e.packets, timegm);
  }

  lemma RecentSnoc(offered: seq<Packet>, since: nat, p: Packet, n: nat)
    requires since <= |offered|
    ensures Run((offered + [p])[since..], n) == Insert(Run(offered[since..], n), p, n).0
  {
    var recent := offered[since..];
    assert (offered + [p])[since..] == recent + [p];
    assert (recent + [p])[..|recent|] == recent;
  }

  /** One packet goes into the cache. */
  lemma StoredKeeps(w: World, n: nat, timegm: Calendar)
    requires n > 0 && Inv(w, n, timegm)
    ensures Inv(Step(w, Stored, n), n, timegm)
  {
    if w.pending != [] {
      var p := w.pending[0];
      assert w.offered + [p] + w.pending[1..] == w.offered + w.pending;
      RecentSnoc(w.offered, w.since, p, n);
    }
  }

  function Stores(k: nat): seq<Event> {
    if k == 0 then [] else Stores(k - 1) + [Stored]
  }

  lemma OneMoreStore(w: World, k: nat, n: nat, timegm: Calendar)
    requires k > 0
    ensures Runs(w, Stores(k), n) == Step(Runs(w, Stores(k - 1), n), Stored, n)
    ensures AllPossible(w, Stores(k - 1), n, timegm) ==> AllPossible(w, Stores(k), n, timegm)
  {
    var events := Stores(k);
    assert events[..|events| - 1] == Stores(k - 1) && events[|events| - 1] == Stored;
    StorePossible(Runs(w, Stores(k - 1), n), timegm);
  }

  lemma StorePossible(w: World, timegm: Calendar)
    ensures Possible(w, Stored, timegm)
  {
  }

  lemma OneLessPending(ps: seq<Packet>, k: nat)
    requires k < |ps|
    ensures ps[k..] != [] && ps[k..][0] == ps[k] && ps[k..][1..] == ps[k + 1..]
    ensures ps[..k] + [ps[k]] == ps[..k + 1]
  {
  }

  /** v is w after k of the pending packets have been stored. */
  ghost predicate StoredFirst(w: World, v: World, k: nat) {
    k <= |w.pending| &&
    v == w.(pending := w.pending[k..], offered := w.offered + w.pending[..k], cache := v.cache)
  }

  lemma StoresNext(w: World, v: World, k: nat, n: nat)
    requires StoredFirst(w, v, k) && k < |w.pending|
    ensures StoredFirst(w, Step(v, Stored, n), k + 1)
  {
    OneLessPending(w.pending, k);
    ConcatAssociative(w.offered, w.pending[..k], [w.pending[k]]);
  }

  lemma StoresNone(w: World)
    ensures StoredFirst(w, w, 0)
  {
    NothingAfter(w.offered);
  }

  lemma {:induction false} StoresInOrder(w: World, k: nat, n: nat, timegm: Calendar)
    requires k <= |w.pending|
    ensures StoredFirst(w, Runs(w, Stores(k), n), k) && AllPossible(w, Stores(k), n, timegm)
  {
    if k == 0 {
      StoresNone(w);
    } else {
      StoresInOrder(w, k - 1, n, timegm);
      OneMoreStore(w, k, n, timegm);
      StoresNext(w, Runs(w, Stores(k - 1), n), k - 1, n);
    }
  }

  /** Every packet decoded reaches the cache: when the client has stored all that is pending,
      each frame taken has been offered once, in order, and the cache holds the newest of what
      was offered since the last reallocation. */
  lemma PendingReachesCache(w: World, n: nat, timegm: Calendar)
    requires n > 0 && Inv(w, n, timegm)
    ensures var v := Runs(w, Stores(|w.pending|), n);
      && v.pending == [] && v.offered == w.offered + w.pending && v.pieces == w.pieces && v.since == w.since
      && Client.PacketsFor(timegm, v.offered, StoredImages(w.pieces))
      && v.since <= |v.offered| && IsNewest(v.cache, v.offered[v.since..], n)
  {
    var k := |w.pending|;
    StoresInOrder(w, k, n, timegm);
    RunsKeep(w, Stores(k), n, timegm);
    var v := Runs(w, Stores(k), n);
    assert w.pending[..k] == w.pending;
    NothingAfter(v.offered);
    RunIsNewest(v.offered[v.since..], n);
  }

  /** A reallocation starts afresh: the cache is empty and the connection is closed. */
  lemma ReallocationEmpties(w: World, n: nat, timegm: Calendar)
    requires n > 0 && Inv(w, n, timegm)
    ensures var v := Step(w, Reallocated, n);
      && v.cache == [] && v.conn.state == S.Inactive && v.conn.send == [] && v.pending == w.pending
      && (forall k :: 0 <= k <= |w.pending| ==> RecentOnly(w, Runs(v, Stores(k), n)))
  {
    var v := Step(w, Reallocated, n);
    StepKeeps(w, Reallocated, n, timegm);
    forall k | 0 <= k <= |w.pending| ensures RecentOnly(w, Runs(v, Stores(k), n)) {
      StoresInOrder(v, k, n, timegm);
      RunsKeep(v, Stores(k), n, timegm);
      var u := Runs(v, Stores(k), n);
      assert u.offered[u.since..] == w.pending[..k];
      forall p | p in u.cache ensures p in w.pending {
        CachedWereOffered(u.offered[u.since..], n, p);
      }
    }
  }

  /** When the client has connected again, a stream of frames is decoded from its start,
      whatever was left on the ring before. */
  lemma FreshAfterReset(w: World, frames: seq<seq<byte>>, n: nat)
    requires AllWireFrames(frames)
    ensures Receive(Step(w, UpstreamReset, n), Flatten(frames), false) == Outcome(PiecesOf(frames), [], false)
  {
    NothingBefore(Flatten(frames));
    assert [] + Flatten(frames) == Flatten(frames);
    AllFramesNow(frames);
  }

  lemma AllFramesNow(frames: seq<seq<byte>>)
    requires AllWireFrames(frames)
    ensures CheckData(Flatten(frames), false) == Outcome(PiecesOf(frames), [], false)
  {
    var chunks := [Flatten(frames)];
    FlattenSnoc([], Flatten(frames));
    NothingBefore(Flatten(frames));
    assert [] + chunks == chunks;
    AllArrived(frames, chunks);
    OneChunk(Flatten(frames));
  }

  lemma OneChunk(bytes: seq<byte>)
    ensures !Feed([], [bytes]).aborted ==> Feed([], [bytes]) == CheckData(bytes, false)
  {
    var o := CheckData([] + bytes, false);
    assert [] + bytes == bytes && [bytes][1..] == [];
    NothingAfter(o.pieces);
  }

  /** A client that connects and asks is answered with the channel information first, and
      nothing before it. */
  lemma ConnectsAndAsks(w: World, capacity: nat, start: real, send: S.SendResult, info: ChannelInfo, n: nat)
    requires Accepted(info) && capacity >= CHANINFOLEN
    ensures var e := ToClient(S.Arriving(CHANREQUEST), false, send, info, start);
      var c := Step(Step(w, Connected(capacity, start), n), e, n).conn;
      c.state == S.SendAdc && c.enqueued == [Print(info)] && c.delivered == [] && c.lastTime == start
  {
    S.FreshAsks(capacity, start, S.Pass(S.Arriving(CHANREQUEST), false, send, w.cache, info, start));
  }

  ghost predicate RecentOnly(w: World, u: World) {
    forall p :: p in u.cache ==> p in w.pending
  }

  // ----- passes over the connection -----

  lemma {:induction false} CachedWereOffered(ops: seq<Packet>, n: nat, p: Packet)
    requires n > 0 && p in Run(ops, n)
    ensures p in ops
  {
    RunIsNewest(ops, n);
    var k :| 0 <= k < |Run(ops, n)| && Run(ops, n)[k] == p;
    LastAtOffered(ops, p.time);
  }

  lemma ConfigNotStored(f: seq<byte>)
    requires IsConfigText(f)
    ensures !IsStored(PieceOf(f))
  {
    assert f[..5] == CHANTOKEN && f[0] == CHANTOKEN[0];
  }

  lemma FrameStored(p: Packet, pieces: seq<Piece>)
    requires Genuine(p, pieces)
    ensures PieceOf(p.bytes) == Data(p.bytes) && IsStored(PieceOf(p.bytes))
  {
    assert p.bytes[..4] == ADCTOKEN;
  }

  lemma TextEnqueued(enqueued: seq<seq<byte>>, f: seq<byte>)
    requires IsConfigText(f)
    ensures StoredFrames(enqueued + [f]) == StoredFrames(enqueued)
  {
    assert (enqueued + [f])[..|enqueued|] == enqueued;
    ConfigNotStored(f);
  }

  lemma PacketEnqueued(enqueued: seq<seq<byte>>, delivered: seq<Packet>, p: Packet, pieces: seq<Piece>)
    requires Genuine(p, pieces)
    ensures StoredFrames(enqueued + [p.bytes]) == StoredFrames(enqueued) + [p.bytes]
    ensures Images(delivered + [p]) == Images(delivered) + [p.bytes]
  {
    FrameStored(p, pieces);
    assert (enqueued + [p.bytes])[..|enqueued|] == enqueued && (delivered + [p])[..|delivered|] == delivered;
  }

  /** What the switch puts on the send ring is a channel text or a packet of the cache. */
  lemma SwitchKeepsImages(c: S.Conn, i: S.Pass, w: World, n: nat)
    requires n > 0 && Accepted(i.info) && w.since <= |w.offered| && i.cache == Run(w.offered[w.since..], n)
    requires forall p :: p in w.offered ==> Genuine(p, w.pieces)
    requires forall p :: p in c.delivered ==> p in w.offered
    requires StoredFrames(c.enqueued) == Images(c.delivered)
    ensures var d := S.Switch(c, i);
      StoredFrames(d.enqueued) == Images(d.delivered) && forall p :: p in d.delivered ==> p in w.offered
  {
    S.SwitchEnqueues(c, i);
    PrintedIsConfigText(i.info);
    TextEnqueued(c.enqueued, Print(i.info));
    if NextAfter(i.cache, c.lastTime).Some? {
      var p := NextAfter(i.cache, c.lastTime).value;
      CachedWereOffered(w.offered[w.since..], n, p);
      PacketEnqueued(c.enqueued, c.delivered, p, w.pieces);
    }
  }

  /** Between one setting back of the record and the next, delivered times increase. */
  lemma PassAscends(w: World, e: Event, n: nat)
    requires e.ToClient?
    requires w.mark <= |w.conn.delivered| && S.Ascending(w.conn.delivered[w.mark..], w.start, w.conn.lastTime)
    ensures var v := Step(w, e, n);
      v.mark <= |v.conn.delivered| && S.Ascending(v.conn.delivered[v.mark..], v.start, v.conn.lastTime)
  {
    var v, i := Step(w, e, n), PassOf(w.cache, e);
    S.ServiceDelivers(w.conn, i);
    if v.conn.delivered == w.conn.delivered {
      StillAscending(w.conn.delivered, w.mark, w.start, w.conn.lastTime, e.found);
      if SetBack(w, e) && v.conn.lastTime == w.conn.lastTime {
        assert w.conn.delivered[|w.conn.delivered|..] == [];
      }
    } else {
      OneMoreAscending(w.conn.delivered, w.mark, w.start, w.conn.lastTime, e.found,
                       NextAfter(i.cache, i.found).value);
    }
  }

  lemma StillAscending(ps: seq<Packet>, mark: nat, start: real, last: real, found: real)
    requires mark <= |ps| && S.Ascending(ps[mark..], start, last)
    ensures found < last ==> S.Ascending(ps[|ps|..], found, found)
    ensures last <= found ==> S.Ascending(ps[mark..], start, found)
  {
  }

  lemma OneMoreAscending(ps: seq<Packet>, mark: nat, start: real, last: real, found: real, p: Packet)
    requires mark <= |ps| && S.Ascending(ps[mark..], start, last) && found < p.time
    ensures found < last ==> S.Ascending((ps + [p])[|ps|..], found, p.time)
    ensures last <= found ==> S.Ascending((ps + [p])[mark..], start, p.time)
  {
    assert (ps + [p])[|ps|..] == [p] && (ps + [p])[mark..] == ps[mark..] + [p];
  }

  lemma PassKeeps(w: World, e: Event, n: nat, timegm: Calendar)
    requires n > 0 && e.ToClient? && Inv(w, n, timegm) && Possible(w, e, timegm)
    ensures Inv(Step(w, e, n), n, timegm)
  {
    var i := PassOf(w.cache, e);
    S.ServiceKeeps(w.conn, i);
    PassAscends(w, e, n);
    PassKeepsImages(w, e, n, timegm);
  }

  lemma PassKeepsImages(w: World, e: Event, n: nat, timegm: Calendar)
    requires n > 0 && e.ToClient? && Inv(w, n, timegm) && Possible(w, e, timegm)
    ensures var c := Step(w, e, n).conn;
      && (forall p :: p in c.delivered ==> p in w.offered)
      && StoredFrames(c.enqueued) == Images(c.delivered)
  {
    var i := PassOf(w.cache, e);
    var d := w.conn.(lastTime := i.found);
    var c := S.Receive(d, i.recv);
    S.ReceiveOnlyReads(d, i.recv);
    SwitchKeepsImages(c, i, w, n);
    S.TransmitOnlySends(S.Switch(c, i), i);
  }

  /** A connection that has just been accepted, or none at all. */
  lemma ConnectKeeps(w: World, capacity: nat, start: real, live: bool, n: nat, timegm: Calendar)
    requires Inv(w, n, timegm)
    ensures var c := S.Accept(capacity, start);
      Inv(w.(conn := if live then c else c.(state := S.Inactive), start := start, mark := 0), n, timegm)
  {
    S.AcceptedConnection(capacity, start);
  }

  /** A new, empty cache. */
  lemma ReallocateKeeps(w: World, n: nat, timegm: Calendar)
    requires Inv(w, n, timegm)
    ensures Inv(w.(since := |w.offered|, cache := []), n, timegm)
  {
    assert w.offered[|w.offered|..] == [];
  }

  /** The bytes on the ring are thrown away. */
  lemma ResetKeeps(w: World, n: nat, timegm: Calendar)
    requires Inv(w, n, timegm)
    ensures Inv(Step(w, UpstreamReset, n), n, timegm)
  {
    var ps := Dropped(w.ring, |w.ring|);
    DroppedOk(w.ring, |w.ring|);
    JoinOk(w.pieces, ps, w.upstream, w.ring, []);
    NoDataNoImages(ps);
    UpstreamPackets(w, ps, [], timegm);
    NothingAfter(w.pending);
  }

  lemma StepKeeps(w: World, e: Event, n: nat, timegm: Calendar)
    requires n > 0 && Inv(w, n, timegm) && Possible(w, e, timegm)
    ensures Inv(Step(w, e, n), n, timegm)
  {
    match e
    case FromUpstream(_, _, _) => UpstreamKeeps(w, e, n, timegm);
    case Stored => StoredKeeps(w, n, timegm);
    case UpstreamReset => ResetKeeps(w, n, timegm);
    case ToClient(_, _, _, _, _) => PassKeeps(w, e, n, timegm);
    case Connected(capacity, start) => ConnectKeeps(w, capacity, start, true, n, timegm);
    case Reallocated =>
      ReallocateKeeps(w, n, timegm);
      ConnectKeeps(w.(since := |w.offered|, cache := []), 0, 0.0, false, n, timegm);
  }

  lemma {:induction false} RunsKeep(w: World, events: seq<Event>, n: nat, timegm: Calendar)
    requires n > 0 && Inv(w, n, timegm) && AllPossible(w, events, n, timegm)
    ensures Inv(Runs(w, events, n), n, timegm)
  {
    if events != [] {
      RunsKeep(w, events[..|events| - 1], n, timegm);
      StepKeeps(Runs(w, events[..|events| - 1], n), events[|events| - 1], n, timegm);
    }
  }

  lemma ReachableInv(events: seq<Event>, n: nat, timegm: Calendar)
    requires n > 0 && AllPossible(INITIAL, events, n, timegm)
    ensures Inv(Runs(INITIAL, events, n), n, timegm)
  {
    S.AcceptedConnection(0, 0.0);
    RunsKeep(INITIAL, events, n, timegm);
  }

  // ----- the client at the other end -----

  lemma {:induction false} StoredFramesPrefix(a: seq<seq<byte>>, b: seq<seq<byte>>)
    ensures StoredFrames(a) <= StoredFrames(a + b)
  {
    if b == [] {
      assert a + b == a;
    } else {
      StoredFramesPrefix(a, b[..|b| - 1]);
      assert (a + b)[..|a + b| - 1] == a + b[..|b| - 1];
    }
  }

  lemma EnqueuedAreWireFrames(w: World, n: nat, timegm: Calendar)
    requires Inv(w, n, timegm)
    ensures AllWireFrames(w.conn.enqueued)
  {
    forall f | f in w.conn.enqueued ensures IsWireFrame(f) {
      assert S.IsEnqueued(f, w.conn.delivered);
      if !IsConfigText(f) {
        var p :| p in w.conn.delivered && p.bytes == f;
        assert Genuine(p, w.pieces);
      }
    }
  }

  /** What a client has decoded whose connection is w.conn and that received the chunks. */
  ghost predicate Arrived(w: World, chunks: seq<seq<byte>>, done: seq<seq<byte>>, rest: seq<byte>) {
    && Feed([], chunks) == Outcome(PiecesOf(done), rest, false)
    && done <= w.conn.enqueued && Flatten(done) + rest == Flatten(chunks)
    && StoredImages(PiecesOf(done)) <= Images(w.conn.delivered)
  }

  /** Every packet delivered was a whole checksummed A/D data frame of the upstream stream,
      and the times delivered since the record was last set back strictly increase. */
  ghost predicate DeliveredGenuine(w: World) {
    && Raw(w.pieces) + w.ring == w.upstream
    && (forall p :: p in w.conn.delivered ==> Genuine(p, w.pieces))
    && w.mark <= |w.conn.delivered| && S.Ascending(w.conn.delivered[w.mark..], w.start, w.conn.lastTime)
  }

  /** End to end. Whatever the upstream bytes were and however they arrived, through any
      reallocations, whatever other connections did to the history record, and however the
      connection's bytes are cut on their way, the client at the other end takes off exactly
      the frames that reached it whole, in order; the packets it stores are a prefix of the
      packets delivered to it, byte for byte. */
  lemma EndToEnd(events: seq<Event>, n: nat, timegm: Calendar, w: World, chunks: seq<seq<byte>>)
    requires n > 0 && AllPossible(INITIAL, events, n, timegm) && w == Runs(INITIAL, events, n)
    requires Flatten(chunks) <= w.conn.sent
    ensures var s := SplitFrames(w.conn.enqueued, Flatten(chunks)); Arrived(w, chunks, s.done, s.rest)
    ensures DeliveredGenuine(w)
  {
    ReachableInv(events, n, timegm);
    EnqueuedAreWireFrames(w, n, timegm);
    assert Flatten(chunks) <= w.conn.sent + w.conn.send;
    WireFramesDecode(w.conn.enqueued, chunks);
    var s := SplitFrames(w.conn.enqueued, Flatten(chunks));
    StoredImagesOfFrames(s.done);
    StoredFramesPrefix(s.done, s.todo);
  }

  // ----- the reader meets every packet -----

  lemma GridOfImages(timegm: Calendar, a: seq<byte>, b: seq<byte>)
    requires |a| >= Client.HEADERSLEN && |b| >= Client.HEADERSLEN
    requires Client.DecodePktTime(timegm, a) < Client.DecodePktTime(timegm, b)
    ensures Client.DecodePktTime(timegm, a) + 0.001 <= Client.DecodePktTime(timegm, b)
  {
    Delivery.MillisecondGrid(timegm(a[8..22]), Client.Signed16(a[22..24]),
                             timegm(b[8..22]), Client.Signed16(b[22..24]));
  }

  /** When the stored frames held a full data header, cached packets are at least a
      millisecond apart. */
  lemma CacheIsSpaced(w: World, n: nat, timegm: Calendar)
    requires n > 0 && Inv(w, n, timegm)
    requires forall p :: p in w.cache ==> |p.bytes| >= Client.HEADERSLEN
    ensures Sorted(w.cache) && Delivery.Spaced(w.cache)
  {
    RunIsNewest(w.offered[w.since..], n);
    forall i, j | 0 <= i && j == i + 1 < |w.cache|
      ensures w.cache[i].time + 0.001 <= w.cache[j].time
    {
      var p, q := w.cache[i], w.cache[j];
      CachedWereOffered(w.offered[w.since..], n, p);
      CachedWereOffered(w.offered[w.since..], n, q);
      OfferedTime(w, n, timegm, p);
      OfferedTime(w, n, timegm, q);
      GridOfImages(timegm, p.bytes, q.bytes);
    }
  }

  lemma OfferedTime(w: World, n: nat, timegm: Calendar, p: Packet)
    requires Inv(w, n, timegm) && p in w.offered && |p.bytes| >= Client.HEADERSLEN
    ensures p.time == Client.DecodePktTime(timegm, p.bytes)
  {
    var k :| 0 <= k < |w.offered| && w.offered[k] == p;
    var all := w.offered + w.pending;
    assert all[k] == p && Client.PacketFor(timegm, all[k], StoredImages(w.pieces)[k]);
  }

  /** Upstream bytes may come in, but nothing is stored, and the connection is served: its
      client neither closes nor asks again, and nobody else moves the record. */
  ghost predicate Calm(w: World, e: Event) {
    match e
    case FromUpstream(_, _, _) => true
    case UpstreamReset => true
    case ToClient(_, _, _, _, found) => found == w.conn.lastTime && S.Listening(w.conn, PassOf(w.cache, e))
    case _ => false
  }

  ghost predicate AllCalm(w: World, events: seq<Event>, n: nat) {
    events == [] ||
    (AllCalm(w, events[..|events| - 1], n) && Calm(Runs(w, events[..|events| - 1], n), events[|events| - 1]))
  }

  function Passes(cache: seq<Packet>, events: seq<Event>): seq<S.Pass> {
    if events == [] then []
    else
      var e := events[|events| - 1];
      Passes(cache, events[..|events| - 1]) + (if e.ToClient? then [PassOf(cache, e)] else [])
  }

  /** How many of the events are passes that move bytes. */
  function Moving(events: seq<Event>): nat {
    if events == [] then 0
    else
      var e := events[|events| - 1];
      Moving(events[..|events| - 1]) + (if e.ToClient? && S.Moves(PassOf([], e)) then 1 else 0)
  }

  lemma OneMorePass(passes: seq<S.Pass>, i: S.Pass, c: S.Conn, s: seq<Packet>)
    requires S.AllReading(c, passes, s) && i.cache == s
    requires S.Listening(S.Run(c, passes), i) && i.found == S.Run(c, passes).lastTime
    ensures S.AllReading(c, passes + [i], s)
    ensures S.Run(c, passes + [i]) == S.Service(S.Run(c, passes), i)
    ensures S.Moving(passes + [i]) == S.Moving(passes) + (if S.Moves(i) then 1 else 0)
  {
    assert (passes + [i])[..|passes|] == passes;
  }

  /** Then the passes read the cache as it is. */
  lemma {:induction false} CalmIsReading(w: World, events: seq<Event>, n: nat)
    requires AllCalm(w, events, n)
    ensures var v, passes := Runs(w, events, n), Passes(w.cache, events);
      && S.Moving(passes) == Moving(events) && S.AllReading(w.conn, passes, w.cache)
      && v.cache == w.cache && v.conn == S.Run(w.conn, passes)
  {
    if events != [] {
      var e, before := events[|events| - 1], Passes(w.cache, events[..|events| - 1]);
      CalmIsReading(w, events[..|events| - 1], n);
      if e.ToClient? {
        OneMorePass(before, PassOf(w.cache, e), w.conn, w.cache);
      } else {
        NothingAfter(before);
      }
    }
  }

  /** What is deliverable from the cache of a world. */
  lemma WhatIsDeliverable(w: World, n: nat, timegm: Calendar)
    requires n > 0 && Inv(w, n, timegm)
    requires forall p :: p in w.cache ==> |p.bytes| >= Client.HEADERSLEN
    ensures var newer := Delivery.Newer(w.cache, w.conn.lastTime);
      S.Deliverable(w.conn, w.cache) == newer <==> forall p :: p in newer ==> |p.bytes| <= w.conn.capacity
  {
    CacheIsSpaced(w, n, timegm);
    SpacedSuffix(w.cache, LowerBound(w.cache, w.conn.lastTime + 0.001));
    S.DeliverableIsNewerIff(w.conn, w.cache);
  }

  /** A connection served calmly, with as many passes that move bytes as are due, has got
      what is deliverable. */
  lemma CalmDelivers(w: World, later: seq<Event>, n: nat)
    requires |w.conn.send| <= w.conn.capacity && AllCalm(w, later, n) && Moving(later) >= S.Due(w.conn, w.cache)
    ensures var c := Runs(w, later, n).conn;
      c.send == [] && c.delivered == w.conn.delivered + S.Deliverable(w.conn, w.cache)
  {
    CalmIsReading(w, later, n);
    S.CatchesUp(w.conn, Passes(w.cache, later), w.cache);
  }

  /** In every world the proxy reaches: a connection that is then served calmly, however often
      its socket blocks, has got every cached packet after its time once the passes due have
      moved bytes, each packet once and in order, exactly when none of those is longer than
      the send ring; and nothing is left on the ring. */
  lemma ReaderMeetsEveryPacket(events: seq<Event>, later: seq<Event>, n: nat, timegm: Calendar, w: World)
    requires n > 0 && AllPossible(INITIAL, events, n, timegm) && w == Runs(INITIAL, events, n)
    requires forall p :: p in w.cache ==> |p.bytes| >= Client.HEADERSLEN
    requires AllCalm(w, later, n) && Moving(later) >= S.Due(w.conn, w.cache)
    ensures var c, newer := Runs(w, later, n).conn, Delivery.Newer(w.cache, w.conn.lastTime);
      && c.send == []
      && (c.delivered == w.conn.delivered + newer <==> forall p :: p in newer ==> |p.bytes| <= w.conn.capacity)
  {
    ReachableInv(events, n, timegm);
    WhatIsDeliverable(w, n, timegm);
    CalmDelivers(w, later, n);
    Delivery.AfterSame(w.conn.delivered, S.Deliverable(w.conn, w.cache), Delivery.Newer(w.cache, w.conn.lastTime));
  }

  /** So under one configuration, by which the send ring was made and every cached packet is
      one second's data at most, the connection gets every packet newer than its time. */
  lemma OneConfigurationDeliversAll(events: seq<Event>, later: seq<Event>, n: nat, timegm: Calendar, w: World,
                                    info: ChannelInfo)
    requires n > 0 && AllPossible(INITIAL, events, n, timegm) && w == Runs(INITIAL, events, n)
    requires forall p :: p in w.cache ==> Client.HEADERSLEN <= |p.bytes| <= S.SdrPktSize(info)
    requires info.sps >= 0 && info.numChannels >= 0 && w.conn.capacity == S.SendBfrSize(info)
    requires AllCalm(w, later, n) && Moving(later) >= S.Due(w.conn, w.cache)
    ensures var c := Runs(w, later, n).conn;
      c.send == [] && c.delivered == w.conn.delivered + Delivery.Newer(w.cache, w.conn.lastTime)
  {
    S.PacketFitsSendRing(info);
    NewerAreCached(w.cache, w.conn.lastTime);
    ReaderMeetsEveryPacket(events, later, n, timegm, w);
  }

  lemma NewerAreCached(s: seq<Packet>, t: real)
    ensures forall p :: p in Delivery.Newer(s, t) ==> p in s
  {
  }

  /** And the client at the other end, when those bytes have reached it, has stored what it
      had been delivered before and everything deliverable, byte for byte. */
  lemma ClientCatchesUp(events: seq<Event>, later: seq<Event>, n: nat, timegm: Calendar, w: World,
                        chunks: seq<seq<byte>>)
    requires n > 0 && AllPossible(INITIAL, events, n, timegm) && w == Runs(INITIAL, events, n)
    requires AllCalm(w, later, n) && AllPossible(w, later, n, timegm) && Moving(later) >= S.Due(w.conn, w.cache)
    requires Flatten(chunks) == Runs(w, later, n).conn.sent
    ensures var o := Feed([], chunks);
      !o.aborted && o.rest == [] &&
      StoredImages(o.pieces) == Images(w.conn.delivered + S.Deliverable(w.conn, w.cache))
  {
    ReachableInv(events, n, timegm);
    RunsKeep(w, later, n, timegm);
    CalmDelivers(w, later, n);
    AllHasArrived(Runs(w, later, n), n, timegm, chunks);
  }

  /** Everything sent has arrived, and nothing was left to send. */
  lemma AllHasArrived(v: World, n: nat, timegm: Calendar, chunks: seq<seq<byte>>)
    requires Inv(v, n, timegm) && v.conn.send == [] && Flatten(chunks) == v.conn.sent
    ensures var o := Feed([], chunks);
      !o.aborted && o.rest == [] && StoredImages(o.pieces) == Images(v.conn.delivered)
  {
    EnqueuedAreWireFrames(v, n, timegm);
    NothingAfter(v.conn.sent);
    AllArrived(v.conn.enqueued, chunks);
    StoredImagesOfFrames(v.conn.enqueued);
  }

  lemma SpacedSuffix(s: seq<Packet>, b: nat)
    requires Delivery.Spaced(s) && b <= |s|
    ensures Delivery.Spaced(s[b..])
  {
    assert forall i :: 0 <= i < |s[b..]| ==> s[b..][i] == s[b + i];
  }
}
