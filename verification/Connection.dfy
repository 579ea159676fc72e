// struct connectiondata of src/server.c and service_connection on it.
module Connection {
  import opened Bytes
  import opened ByteSearch
  import opened ByteRing
  import opened ChannelInfo
  import opened SortedCache
  import opened Requests
  import PacketCache
  import Client
  import Delivery
  import History
  import S = Sender

  /** What the local buffers hold. */
  const MAXPACKETSIZE: nat := MAXDATAPERSEC * 4 + PREHDRLEN + DATAHDRLEN + CRCLEN

  /** What check_server_incoming leaves, step by step. */
  lemma CheckRequestBy(rcv: seq<byte>)
    ensures var pos, n := Leftmost(rcv, CHANREQUEST), |CHANREQUEST|;
      CheckRequest(rcv) ==
        if pos > 0 then (rcv[pos..][n..], true)
        else if pos == 0 then (rcv[n..], true)
        else (if |rcv| > n then rcv[|rcv| - n..] else rcv, false)
    ensures Leftmost(rcv, CHANREQUEST) >= 0 ==> Leftmost(rcv, CHANREQUEST) + |CHANREQUEST| <= |rcv|
  {
    var pos := Leftmost(rcv, CHANREQUEST);
    if pos > 0 {
      assert rcv[pos..][|CHANREQUEST|..] == rcv[pos + |CHANREQUEST|..];
    }
  }

  class ConnectionData {
    var state: S.ServerState
    var idleTimer: int
    const rcvRing: Ring
    const sendRing: Ring
    const history: History.Record

    ghost var Enqueued: seq<seq<byte>>
    ghost var SentBytes: seq<byte>
    ghost var Delivered: seq<Packet>
    ghost var Received: seq<byte>
    ghost var Reported: nat

    ghost predicate Valid()
      reads this, rcvRing, sendRing
    {
      && rcvRing.Valid() && sendRing.Valid()
      && rcvRing != sendRing && rcvRing.ring != sendRing.ring
      && rcvRing.Capacity() == SERVERRCVBFRSIZE && 0 <= sendRing.Capacity()
    }

    /** The connection as a state of the machine in Sender. */
    ghost function Abs(): S.Conn
      reads this, rcvRing, rcvRing.ring, sendRing, sendRing.ring, history
      requires Valid()
    {
      S.Conn(state, idleTimer, rcvRing.Contents(), sendRing.Contents(), sendRing.Capacity(), history.lastPacketTime,
             Enqueued, SentBytes, Delivered, Received, Reported)
    }

    /** create_connection_data and the last part of get_new_connection. */
    constructor (info: ChannelInfo, history: History.Record)
      requires 0 <= info.sps * info.numChannels
      ensures Valid() && this.history == history
      ensures Abs() == S.Accept(S.SendBfrSize(info), history.lastPacketTime)
      ensures fresh(rcvRing) && fresh(rcvRing.ring) && fresh(sendRing) && fresh(sendRing.ring)
    {
      rcvRing := new Ring.Alloc(SERVERRCVBFRSIZE);
      sendRing := new Ring.Alloc(PREHDRLEN + DATAHDRLEN + info.sps * info.numChannels * ADCDATASIZE + 1);
      this.history := history;
      state, idleTimer := S.Init, S.SRVR_IDLE_TIMEOUT;
      Enqueued, SentBytes, Delivered, Received, Reported := [], [], [], [], 0;
    }

    /** check_server_incoming. */
    method CheckServerIncoming() returns (found: bool)
      requires Valid()
      modifies rcvRing
      ensures Valid() && (rcvRing.Contents(), found) == CheckRequest(old(rcvRing.Contents()))
    {
      CheckRequestBy(rcvRing.Contents());
      var inbfr := new byte[SERVERRCVBFRSIZE + 1];
      var rpos := Client.SearchRing(CHANREQUEST, rcvRing);
      if rpos >= 0 {
        if rpos > 0 {
          var _ := rcvRing.Retr(inbfr, rpos);
        }
        var _ := rcvRing.Delete(|CHANREQUEST|);
        found := true;
      } else {
        found := false;
        var stored := rcvRing.BytesStored();
        if stored > |CHANREQUEST| {
          var _ := rcvRing.Retr(inbfr, stored - |CHANREQUEST|);
        }
      }
    }

    /** Received bytes go on the ring and are checked for a request. */
    method TakeBytes(got: seq<byte>)
      requires Valid() && 0 < |got| <= SERVERRCVBFRSIZE - |rcvRing.Contents()|
      modifies this`state, this`Reported, this`Received, rcvRing, rcvRing.ring
      ensures Valid()
      ensures Abs() == S.Take(old(Abs()), got)
    {
      ghost var c := Abs();
      var _ := rcvRing.Store(got);
      assert rcvRing.Contents() == c.rcv + got;
      var found := CheckServerIncoming();
      assert (rcvRing.Contents(), found) == CheckRequest(c.rcv + got);
      if found {
        state := S.SendChan;
        Reported := Reported + 1;
      }
      Received := Received + got;
    }

    /** The reading half of service_connection, with server_rcv_to_ring. */
    method ReadSocket(recv: S.RecvResult)
      requires Valid()
      modifies this, rcvRing, rcvRing.ring
      ensures Valid() && Abs() == S.Receive(old(Abs()), recv)
    {
      var free := rcvRing.BytesFree();
      if free > 0 {
        if recv.Closed? {
          state := S.Shutdown;
        } else if recv.Arriving? {
          var got := if |recv.bytes| <= free then recv.bytes else recv.bytes[..free];
          if got != [] {
            TakeBytes(got);
          }
        }
      }
    }

    /** put_channel_data. */
    method PutChannelData(info: ChannelInfo) returns (rv: int)
      requires Valid()
      modifies this`Enqueued, sendRing, sendRing.ring
      ensures Valid() && (rv == 0 || rv == -1)
      ensures var c := old(Abs());
        && (rv == 0 <==> S.Free(c) >= CHANINFOLEN)
        && Abs() == if rv == 0 then S.Enqueue(c, Print(info)[..CHANINFOLEN]) else c
    {
      var free := sendRing.BytesFree();
      if free >= CHANINFOLEN {
        var bfr := Print(info);
        var _ := sendRing.Store(bfr[..CHANINFOLEN]);
        Enqueued := Enqueued + [bfr[..CHANINFOLEN]];
        return 0;
      }
      return -1;
    }

    /** put_adc_data. */
    method PutAdcData(cache: PacketCache.Cache, now: int) returns (packetSent: int)
      requires Valid() && cache.Valid()
      modifies this`Enqueued, this`Delivered, history`lastPacketTime, history`lastUpdate, sendRing, sendRing.ring
      ensures Valid() && Abs() == S.PutAdcData(old(Abs()), cache.Contents)
      ensures packetSent == 1 <==> |Delivered| > |old(Delivered)|
      ensures history.lastUpdate == if packetSent == 1 then now else old(history.lastUpdate)
    {
      var ringRet, element := cache.Retr(history.lastPacketTime);
      if ringRet != 0 {
        return 0;
      }
      var sendAvail := sendRing.BytesFree();
      if |element.bytes| > sendAvail {
        return 0;
      }
      var _ := sendRing.Store(element.bytes);
      history.lastPacketTime := element.time;
      history.lastUpdate := now;
      Enqueued, Delivered := Enqueued + [element.bytes], Delivered + [element];
      return 1;
    }

    /** send_to_client: what send accepts leaves the ring. */
    method SendToClient(send: S.SendResult) returns (rv: int, exited: bool)
      requires Valid() && 0 < |sendRing.Contents()| <= MAXPACKETSIZE
      modifies this`SentBytes, sendRing
      ensures Valid() && (exited <==> send.Fatal?)
      ensures var c := old(Abs());
        var n := if send.Sent? then (if send.bytes <= |c.send| then send.bytes else |c.send|) else 0;
        Abs() == c.(send := c.send[n..], sent := c.sent + c.send[..n])
    {
      var sendbfr := new byte[MAXPACKETSIZE];
      var bytesToSend := sendRing.BytesStored();
      var _ := sendRing.View(sendbfr, bytesToSend);
      match send {
        case Blocked => return 0, false;
        case Pipe => return -1, false;
        case Fatal => return -2, true;
        case Sent(bytes) =>
          var n := if bytes <= bytesToSend then bytes else bytesToSend;
          SentBytes := SentBytes + sendbfr[..n];
          assert sendbfr[..n] == sendbfr[..bytesToSend][..n];
          var _ := sendRing.Delete(n);
          return n, false;
      }
    }

    /** The state switch of service_connection. */
    method SwitchOnState(cache: PacketCache.Cache, info: ChannelInfo, now: int, ghost i: S.Pass)
      returns (packetSent: int)
      requires Valid() && cache.Valid() && i.cache == cache.Contents && i.info == info
      modifies this, history`lastPacketTime, history`lastUpdate, sendRing, sendRing.ring
      ensures Valid() && Abs() == S.Switch(old(Abs()), i)
      ensures packetSent == 1 <==> |Delivered| > |old(Delivered)|
      ensures history.lastUpdate == if packetSent == 1 then now else old(history.lastUpdate)
    {
      packetSent := 0;
      match state {
        case Inactive =>
        case Shutdown =>
          state := S.Inactive;
        case SendChan =>
          var rv := PutChannelData(info);
          if rv == 0 {
            state := S.SendAdc;
          }
        case SendAdc =>
          packetSent := PutAdcData(cache, now);
        case Init =>
          if idleTimer <= 0 {
            state := S.Shutdown;
          } else {
            idleTimer := idleTimer - 1;
          }
      }
    }

    /** service_connection. It returns whether a packet was put on the send ring, or ends the
        program. */
    method ServiceConnection(cache: PacketCache.Cache, info: ChannelInfo, recv: S.RecvResult, writable: bool,
                             send: S.SendResult, now: int)
      returns (packetSent: int, exited: bool)
      requires Valid() && cache.Valid() && sendRing.Capacity() <= MAXPACKETSIZE
      modifies this, rcvRing, rcvRing.ring, history`lastPacketTime, history`lastUpdate, sendRing, sendRing.ring
      ensures Valid()
      ensures var i := S.Pass(recv, writable, send, cache.Contents, info, old(history.lastPacketTime));
        && Abs() == S.Service(old(Abs()), i)
        && (exited <==> S.Exits(old(Abs()), i))
      ensures packetSent == 1 <==> |Delivered| > |old(Delivered)|
      ensures history.lastUpdate == if packetSent == 1 then now else old(history.lastUpdate)
    {
      ghost var i := S.Pass(recv, writable, send, cache.Contents, info, history.lastPacketTime);
      packetSent, exited := 0, false;
      if state == S.Inactive {
        return;
      }
      ReadSocket(recv);
      packetSent := SwitchOnState(cache, info, now, i);
      var bytesToSend := sendRing.BytesStored();
      if bytesToSend != 0 && writable && (state == S.SendChan || state == S.SendAdc) {
        var rv;
        rv, exited := SendToClient(send);
      }
    }
  }

  /** get_new_connection: the client's history record is found or made, a found one is set
      back, and the connection starts from its time. */
  method GetNewConnection(list: History.List, ip: string, serverPort: int, info: ChannelInfo, now: int)
    returns (conn: ConnectionData)
    requires list.Valid() && 0 <= info.sps * info.numChannels
    modifies list, list.Records
    ensures list.Valid() && conn.Valid()
    ensures conn.history in list.Records && conn.history.HasKey(ip, serverPort) && conn.history.lastUpdate == now
    ensures if old(exists r :: r in list.Records && r.HasKey(ip, serverPort))
            then list.Records == old(list.Records)
            else list.Records == old(list.Records) + [conn.history] && conn.history.lastPacketTime == 0.0
    ensures forall r :: r in old(list.Records) ==>
      r.lastUpdate == if r.HasKey(ip, serverPort) then now else old(r.lastUpdate)
    ensures forall r :: r in old(list.Records) ==>
      r.lastPacketTime ==
        if r.HasKey(ip, serverPort) then Delivery.Rewind(old(r.lastPacketTime)) else old(r.lastPacketTime)
    ensures conn.Abs() == S.Accept(S.SendBfrSize(info), conn.history.lastPacketTime)
  {
    var record := list.Retr(ip, serverPort);
    if record == null {
      record := list.Add(ip, serverPort);
    } else {
      record.lastPacketTime := Delivery.Rewind(record.lastPacketTime);
    }
    record.lastUpdate := now;
    conn := new ConnectionData(info, record);
  }
}
