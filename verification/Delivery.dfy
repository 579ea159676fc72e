// Reading the cache through one history record while packets keep being stored.
module Delivery {
  import opened SortedCache

  /** The client thread stores a packet; a connection using the record is served, with some
      room on its send ring; or a returning client sets the record back. */
  datatype Event = Stored(packet: Packet) | Served(room: nat) | Rewound

  /** The cache, the record's last_packet_time, and what was delivered since it was last set
      back to start. */
  datatype Reader = Reader(cache: seq<Packet>, last: real, start: real, delivered: seq<Packet>)

  /** The rewind of get_new_connection: SECONDS_OVERLAP back, then divided and multiplied by
      a minute, which over reals truncates nothing. */
  function Rewind(t: real): real {
    (t - 4.0) / 60.0 * 60.0
  }

  lemma RewindIsFourSeconds(t: real)
    ensures Rewind(t) == t - 4.0
  {
  }

  /** put_adc_data as the record sees it. */
  function Serve(r: Reader, room: nat): Reader {
    match NextAfter(r.cache, r.last)
    case None => r
    case Some(p) => if |p.bytes| > room then r else r.(last := p.time, delivered := r.delivered + [p])
  }

  function Step(r: Reader, e: Event, n: nat): Reader {
    match e
    case Stored(p) => r.(cache := Insert(r.cache, p, n).0)
    case Served(room) => Serve(r, room)
    case Rewound => Reader(r.cache, Rewind(r.last), Rewind(r.last), [])
  }

  function Run(r: Reader, events: seq<Event>, n: nat): Reader {
    if events == [] then r else Step(Run(r, events[..|events| - 1], n), events[|events| - 1], n)
  }

  ghost predicate Inv(r: Reader, n: nat) {
    && Sorted(r.cache) && |r.cache| <= n && r.start <= r.last
    && (forall i, j :: 0 <= i < j < |r.delivered| ==> r.delivered[i].time < r.delivered[j].time)
    && (forall i :: 0 <= i < |r.delivered| ==> r.start < r.delivered[i].time <= r.last)
  }

  /** Whatever is stored in between, the times delivered between rewinds strictly increase. */
  lemma {:induction false} DeliveredAscend(r: Reader, events: seq<Event>, n: nat)
    requires n > 0 && Inv(r, n)
    ensures Inv(Run(r, events, n), n)
  {
    if events != [] {
      var before, e := Run(r, events[..|events| - 1], n), events[|events| - 1];
      DeliveredAscend(r, events[..|events| - 1], n);
      if e.Stored? {
        InsertSorted(before.cache, e.packet, n);
      }
      if e.Rewound? {
        RewindIsFourSeconds(before.last);
      }
    }
  }

  /** A move of last_packet_time skips no packet that is in the cache at that moment and at
      least a millisecond past the old time; and it stays put only when nothing of the kind
      is there or the next packet does not fit. */
  lemma ServeSkipsNothing(r: Reader, room: nat)
    requires Sorted(r.cache)
    ensures var s := Serve(r, room);
      && (s.delivered != r.delivered ==>
            && r.last + 0.001 <= s.last
            && s.delivered == r.delivered + [s.delivered[|s.delivered| - 1]]
            && s.delivered[|s.delivered| - 1] in r.cache && s.delivered[|s.delivered| - 1].time == s.last
            && forall p :: p in r.cache ==> !(r.last + 0.001 <= p.time < s.last))
      && (s.delivered == r.delivered ==>
            && s == r
            && (|| (forall p :: p in r.cache ==> p.time < r.last + 0.001)
                || (exists p :: p in r.cache && r.last + 0.001 <= p.time && |p.bytes| > room)))
  {
    var i := LowerBound(r.cache, r.last + 0.001);
    if i < |r.cache| {
      assert r.cache[i] in r.cache;
    }
  }

  // ----- an unchanging cache -----

  lemma {:induction false} NextMoves(s: seq<Packet>, t: real)
    requires NextAfter(s, t).Some?
    ensures LowerBound(s, t + 0.001) < LowerBound(s, NextAfter(s, t).value.time + 0.001)
  {
    if s[0].time < t + 0.001 {
      NextMoves(s[1..], t);
    }
  }

  /** The packets that a reader meets after time t: the next one, and those after it. */
  function Ahead(s: seq<Packet>, t: real): seq<Packet>
    decreases |s| - LowerBound(s, t + 0.001)
  {
    match NextAfter(s, t)
    case None => []
    case Some(p) => NextMoves(s, t); [p] + Ahead(s, p.time)
  }

  ghost predicate OnlyServed(events: seq<Event>) {
    forall e :: e in events ==> e.Served?
  }

  /** How many of the servings have room for a packet of the given size. */
  function Roomy(events: seq<Event>, size: nat): nat {
    if events == [] then 0
    else
      var e := events[|events| - 1];
      Roomy(events[..|events| - 1], size) + (if e.Served? && e.room >= size then 1 else 0)
  }

  lemma AheadFirst(s: seq<Packet>, t: real)
    ensures Ahead(s, t) ==
      match NextAfter(s, t) { case None => [] case Some(p) => [p] + Ahead(s, p.time) }
  {
  }

  /** Of what was ahead, the first packets have been delivered and the others are left. */
  ghost predicate Taken(before: seq<Packet>, after: seq<Packet>, was: seq<Packet>, now: seq<Packet>) {
    |after| <= |before| &&
    var k := |before| - |after|; now == was + before[..k] && after == before[k..]
  }

  lemma TakenOne(before: seq<Packet>, after: seq<Packet>, was: seq<Packet>, now: seq<Packet>)
    requires Taken(before, after, was, now) && after != []
    ensures Taken(before, after[1..], was, now + [after[0]]) && after[0] in before
  {
    var k := |before| - |after|;
    assert before[..k + 1] == before[..k] + [before[k]];
  }

  lemma ServedOnce(r: Reader, room: nat)
    ensures var q, ahead := Serve(r, room), Ahead(r.cache, r.last);
      && q.cache == r.cache
      && (if ahead != [] && |ahead[0].bytes| <= room
          then q.delivered == r.delivered + [ahead[0]] && Ahead(q.cache, q.last) == ahead[1..]
          else q == r)
  {
  }

  /** Servings, with whatever room, take what lies ahead from its front, nothing else and
      nothing twice; every serving with enough room advances while anything is left. */
  lemma {:induction false} ServedRun(r: Reader, events: seq<Event>, n: nat, size: nat)
    requires OnlyServed(events)
    requires forall p :: p in Ahead(r.cache, r.last) ==> |p.bytes| <= size
    ensures var q := Run(r, events, n);
      var before, after := Ahead(r.cache, r.last), Ahead(q.cache, q.last);
      && q.cache == r.cache && Taken(before, after, r.delivered, q.delivered)
      && (after != [] ==> Roomy(events, size) + |after| <= |before|)
  {
    if events != [] {
      var b, e := Run(r, events[..|events| - 1], n), events[|events| - 1];
      var left := Ahead(b.cache, b.last);
      assert e in events;
      ServedRun(r, events[..|events| - 1], n, size);
      ServedOnce(b, e.room);
      if left != [] {
        TakenOne(Ahead(r.cache, r.last), left, r.delivered, b.delivered);
      }
    }
  }

  /** Neighbours are at least a millisecond apart. */
  ghost predicate Spaced(s: seq<Packet>) {
    forall i, j :: 0 <= i && j == i + 1 < |s| ==> s[i].time + 0.001 <= s[j].time
  }

  lemma NextPlace(s: seq<Packet>, n: nat)
    requires Sorted(s) && n < |s| && Spaced(s[n..])
    ensures LowerBound(s, s[n].time + 0.001) == n + 1 && Spaced(s[n + 1..])
  {
    var u, v := s[n..], s[n + 1..];
    assert forall i :: 0 <= i < |v| ==> v[i] == u[i + 1];
    if n + 1 < |s| {
      assert u[0].time + 0.001 <= u[1].time;
    }
  }

  lemma {:induction false} SpacedAhead(s: seq<Packet>, t: real, n: nat)
    requires Sorted(s) && n == LowerBound(s, t + 0.001) && Spaced(s[n..])
    ensures Ahead(s, t) == s[n..]
    decreases |s| - n
  {
    AheadFirst(s, t);
    if n < |s| {
      NextPlace(s, n);
      SpacedAhead(s, s[n].time, n + 1);
      assert s[n..] == [s[n]] + s[n + 1..];
    }
  }

  lemma {:induction false} AheadIsSpaced(s: seq<Packet>, t: real)
    ensures var a := Ahead(s, t);
      && Spaced(a) && |a| <= |s| - LowerBound(s, t + 0.001)
      && (a != [] ==> t + 0.001 <= a[0].time)
    decreases |s| - LowerBound(s, t + 0.001)
  {
    if NextAfter(s, t).Some? {
      NextMoves(s, t);
      AheadIsSpaced(s, NextAfter(s, t).value.time);
    }
  }

  /** The packets that are at least a millisecond newer than t. */
  function Newer(s: seq<Packet>, t: real): seq<Packet> {
    s[LowerBound(s, t + 0.001)..]
  }

  /** What lies ahead is all that is newer exactly when that is spaced. */
  lemma AheadIsNewerIff(s: seq<Packet>, t: real)
    requires Sorted(s)
    ensures |Ahead(s, t)| <= |Newer(s, t)| && (Ahead(s, t) == Newer(s, t) <==> Spaced(Newer(s, t)))
  {
    AheadIsSpaced(s, t);
    if Spaced(Newer(s, t)) {
      SpacedAhead(s, t, LowerBound(s, t + 0.001));
    }
  }

  lemma AfterSame(a: seq<Packet>, b: seq<Packet>, c: seq<Packet>)
    ensures a + b == a + c <==> b == c
  {
    assert (a + b)[|a|..] == b && (a + c)[|a|..] == c;
  }

  lemma AllTaken(before: seq<Packet>, was: seq<Packet>, now: seq<Packet>)
    requires Taken(before, [], was, now)
    ensures now == was + before
  {
    assert before[..|before|] == before;
  }

  /** A reader that has been served with enough room as often as there was a packet ahead. */
  lemma ServedWholly(r: Reader, events: seq<Event>, n: nat, size: nat)
    requires OnlyServed(events)
    requires forall p :: p in Ahead(r.cache, r.last) ==> |p.bytes| <= size
    requires Roomy(events, size) >= |Ahead(r.cache, r.last)|
    ensures Run(r, events, n).delivered == r.delivered + Ahead(r.cache, r.last)
  {
    ServedRun(r, events, n, size);
    AllTaken(Ahead(r.cache, r.last), r.delivered, Run(r, events, n).delivered);
  }

  /** Once a reader has been served with enough room as often as packets were newer, it has
      got all of them, each exactly once and in order, exactly when those packets are at
      least a millisecond apart; how often it was served without room does not matter. */
  lemma WholeSuffixIffSpaced(r: Reader, events: seq<Event>, n: nat, size: nat)
    requires Sorted(r.cache) && OnlyServed(events)
    requires forall p :: p in Ahead(r.cache, r.last) ==> |p.bytes| <= size
    requires Roomy(events, size) >= |Newer(r.cache, r.last)|
    ensures Run(r, events, n).delivered == r.delivered + Newer(r.cache, r.last) <==> Spaced(Newer(r.cache, r.last))
  {
    AheadIsNewerIff(r.cache, r.last);
    ServedWholly(r, events, n, size);
    AfterSame(r.delivered, Ahead(r.cache, r.last), Newer(r.cache, r.last));
  }

  /** Packet times are whole milliseconds, so different ones are a millisecond apart. */
  lemma MillisecondGrid(sec: int, msec: int, sec': int, msec': int)
    requires sec as real + msec as real / 1000.0 < sec' as real + msec' as real / 1000.0
    ensures sec as real + msec as real / 1000.0 + 0.001 <= sec' as real + msec' as real / 1000.0
  {
    var a, b := sec * 1000 + msec, sec' * 1000 + msec';
    assert sec as real + msec as real / 1000.0 == a as real / 1000.0;
    assert sec' as real + msec' as real / 1000.0 == b as real / 1000.0;
    assert a as real < b as real;
    assert a + 1 <= b;
    assert (a + 1) as real <= b as real;
  }
}
