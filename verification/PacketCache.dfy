// The packet cache of src/databfr.c: a circular array of pointers to heap slots.
module PacketCache {
  import opened Bytes
  import opened SortedCache

  /** struct datastore: a packet's header fields and the buffer that holds its bytes. */
  class Slot {
    var packetLen: nat
    var packetTime: real
    var packetId: int
    var valid: bool
    var sdrPacket: seq<byte>

    constructor (size: nat)
      ensures |sdrPacket| == size
    {
      sdrPacket := seq(size, _ => 0);
    }

    ghost function Value(): Packet
      reads this
    {
      Packet(packetTime, packetId, valid, if packetLen <= |sdrPacket| then sdrPacket[..packetLen] else [])
    }
  }

  // ----- positions on the circle -----

  /** How many places i lies after a, going round a circle of n. */
  function Dist(a: int, i: int, n: int): int {
    if a <= i then i - a else i - a + n
  }

  /** datar_normalize, for an offset at most one lap off. */
  function Normalize(offset: int, n: int): int
    requires -n <= offset < 2 * n
  {
    if offset < 0 then offset + n else if offset < n then offset else offset - n
  }

  lemma NormalizeIsModulo(offset: int, n: int)
    requires 0 < n && -n <= offset < 2 * n
    ensures Normalize(offset, n) == (offset + n) % n
  {
    assert (offset + n) / n == if offset < 0 then 0 else if offset < n then 1 else 2;
  }

  /** Where the stretch starts, and how long it is, after one more element. */
  function StartAfter(start: int, cnt: int, n: int): int
    requires 0 <= start < n
  {
    if cnt == n then Normalize(start + 1, n) else start
  }

  function CountAfter(cnt: int, n: int): int {
    if cnt == n then cnt else cnt + 1
  }

  ghost predicate Indexes(n: int, start: int, end: int, cnt: int) {
    0 <= start < n && 0 <= cnt <= n && end == Normalize(start + cnt, n)
  }

  /** The occupied stretch of the circle shows contents. */
  ghost predicate Tied(image: seq<Packet>, start: int, cnt: int, contents: seq<Packet>) {
    && |contents| == cnt <= |image|
    && forall i :: 0 <= i < |image| && Dist(start, i, |image|) < cnt ==>
         0 <= Dist(start, i, |image|) && image[i] == contents[Dist(start, i, |image|)]
  }

  /** Every pointer owns a slot of its own, and every slot is pointed to. */
  ghost predicate Owned(store: seq<Slot?>, slots: set<Slot>) {
    && (forall i :: 0 <= i < |store| ==> store[i] != null && store[i] in slots)
    && (forall i, j :: 0 <= i < j < |store| ==> store[i] != store[j])
    && (forall s {:trigger s in store} :: s in slots ==> s in store)
  }

  /** What each slot holds, by array position. */
  ghost function ImageOf(store: array<Slot?>, slots: set<Slot>): seq<Packet>
    reads store, slots
    requires Owned(store[..], slots)
  {
    seq(store.Length, i requires 0 <= i < store.Length && store[i] != null && store[i] in slots
                        reads store, slots => store[i].Value())
  }

  function Compare(target: real, time: real): int {
    if target > time then 1 else if target < time then -1 else 0
  }

  /** The four answers of a search of a list that is not empty. */
  ghost predicate LocatedAt(s: seq<Packet>, target: real, status: int, k: int) {
    0 <= k < |s| &&
    (|| (status == -1 && k == |s| - 1 && s[k].time < target)
     || (status == 1 && k == 0 && target < s[0].time)
     || (status == 0 && s[k].time == target)
     || (status == 2 && 0 < k && s[k - 1].time < target < s[k].time))
  }

  /** Where the pointer at place i comes from when the stretch from..to is rotated by one. */
  function RotatedFrom(from: int, to: int, i: int, n: int): (r: int)
    ensures 0 <= i < n && 0 <= from < n && 0 <= to < n ==> 0 <= r < n
  {
    if i == from then to
    else if Dist(from, i, n) <= Dist(from, to, n) then (if i == 0 then n - 1 else i - 1)
    else i
  }

  ghost predicate Rotated<T>(s: seq<T>, t: seq<T>, from: int, to: int) {
    && |s| == |t| && 0 <= from < |s| && 0 <= to < |s| && from != to
    && forall i :: 0 <= i < |t| ==> t[i] == s[RotatedFrom(from, to, i, |s|)]
  }

  class Cache {
    const size: nat             // DATASIZE
    const store: array<Slot?>   // data_store_g
    var start: nat              // datar_start
    var end: nat                // datar_end
    var cnt: nat                // datar_cnt

    ghost var Contents: seq<Packet>       // the packets from datar_start on
    ghost var Offered: seq<Packet>        // every packet stored since the allocation
    ghost var Slots: set<Slot>            // the slots the last allocation made
    ghost var Live: set<Slot>             // the slots not freed yet
    ghost var SlotSize: nat

    ghost predicate Allocated()
      reads `Slots, `Live, `SlotSize, store, Slots
    {
      && 0 < size == store.Length
      && Owned(store[..], Slots) && Live == Slots
      && forall s :: s in Slots ==> |s.sdrPacket| == SlotSize
    }

    ghost function Image(): seq<Packet>
      reads `Slots, store, Slots
      requires Owned(store[..], Slots)
    {
      ImageOf(store, Slots)
    }

    /** The slots from datar_start on show the given packets. */
    ghost predicate Shows(packets: seq<Packet>)
      reads `start, `end, `cnt, `Slots, `Live, `SlotSize, store, Slots
    {
      Allocated() && Indexes(size, start, end, cnt) && Tied(Image(), start, cnt, packets)
    }

    ghost predicate Valid()
      reads this, store, Slots
    {
      Shows(Contents) && Sorted(Contents) && Contents == Run(Offered, size)
    }

    constructor (dataSize: nat)
      requires dataSize > 0
      ensures size == dataSize && store.Length == dataSize && fresh(store) && Live == {}
    {
      size := dataSize;
      store := new Slot?[dataSize];
      Live := {};
    }

    /** RING_ALLOC with buffers of sdr_pkt_size() bytes. */
    method Alloc(sdrPktSize: nat)
      requires 0 < size == store.Length
      modifies this, store
      ensures Valid() && Contents == [] && Offered == [] && SlotSize == sdrPktSize
      ensures fresh(Slots)
    {
      Slots := {};
      for i := 0 to size
        invariant fresh(Slots)
        invariant Owned(store[..i], Slots)
        invariant forall s :: s in Slots ==> |s.sdrPacket| == sdrPktSize
      {
        var slot := new Slot(sdrPktSize);
        store[i] := slot;
        Slots := Slots + {slot};
        assert store[..i + 1] == store[..i] + [slot];
      }
      assert store[..size] == store[..];
      start, end, cnt := 0, 0, 0;
      Contents, Offered, Live, SlotSize := [], [], Slots, sdrPktSize;
    }

    /** RING_DEALLOC. Free demands a slot that has not been freed, and none is left. */
    method Dealloc()
      requires Valid()
      modifies this
      ensures Live == {} && Slots == old(Slots)
      ensures start == end == cnt == 0
    {
      for i := 0 to size
        invariant Slots == old(Slots) && Live <= Slots
        invariant forall k :: i <= k < size ==> store[k] in Live
        invariant forall k :: 0 <= k < i ==> store[k] !in Live
      {
        Free(store[i]);
      }
      assert forall s :: s in Slots ==> s in store[..];
      start, end, cnt := 0, 0, 0;
    }

    ghost method Free(s: Slot)
      requires s in Live
      modifies this`Live
      ensures Live == old(Live) - {s}
    {
      Live := Live - {s};
    }

    /** compare_index: 1, -1 or 0 as the target is after, before or at the time of the
        packet in that slot. */
    method CompareIndex(target: real, index: nat) returns (c: int)
      requires Shows(Contents) && index < size && Dist(start, index, size) < cnt
      ensures 0 <= Dist(start, index, size)
      ensures c == Compare(target, Contents[Dist(start, index, size)].time)
    {
      assert Image()[index] == store[index].Value();
      c := Compare(target, store[index].packetTime);
    }

    /** search_data_bfr: what the status says and where the index points. */
    ghost predicate Located(target: real, status: int, index: int)
      reads this
    {
      if cnt == 0 then status == -2 && index == -1
      else 0 <= index < size && LocatedAt(Contents, target, status, Dist(start, index, size))
    }

    method Search(target: real) returns (status: int, index: int)
      requires Shows(Contents)
      ensures Located(target, status, index)
    {
      if cnt == 0 {
        return -2, -1;
      }
      index := Normalize(end - 1, size);
      var c := CompareIndex(target, index);
      if c > 0 {
        return -1, index;
      }
      c := CompareIndex(target, start);
      if c < 0 {
        return 1, start;
      }
      status, index := SearchInside(target);
    }

    /** The search proper, once the target is known to lie within the times held. */
    method SearchInside(target: real) returns (status: int, index: int)
      requires Shows(Contents) && cnt > 0
      requires Contents[0].time <= target <= Contents[cnt - 1].time
      ensures Located(target, status, index)
    {
      var min := Bisect(target);
      index := Normalize(start + min, size);
      var c := CompareIndex(target, index);
      if c == 0 {
        status := 0;
      } else {
        status, index := 2, Normalize(index + 1, size);
      }
    }

    /** Its loop: the last place whose time is not past the target. */
    method Bisect(target: real) returns (min: nat)
      requires Shows(Contents) && cnt > 0
      requires Contents[0].time <= target <= Contents[cnt - 1].time
      ensures min < cnt && Contents[min].time <= target
      ensures min + 1 < cnt ==> target < Contents[min + 1].time
    {
      min := 0;
      var max := cnt - 1;
      while min < max
        invariant min <= max < cnt
        invariant Contents[min].time <= target
        invariant max + 1 < cnt ==> target < Contents[max + 1].time
      {
        var mid := min + (max - min + 1) / 2;
        var c := CompareIndex(target, Normalize(start + mid, size));
        if c < 0 {
          max := mid - 1;
        } else {
          min := mid;
        }
      }
    }

    /** store_element. The packet must fit the slot it is copied to. */
    method StoreElement(index: nat, element: Packet)
      requires Allocated() && index < size && |element.bytes| <= SlotSize
      modifies Slots
      ensures Allocated() && Image() == old(Image())[index := element]
    {
      var target := store[index];
      target.packetLen, target.packetTime := |element.bytes|, element.time;
      target.packetId, target.valid := element.id, element.valid;
      target.sdrPacket := element.bytes + target.sdrPacket[|element.bytes|..];
      assert target.Value() == element;
    }

    /** datar_rotate_right: the pointer at to moves to from, the ones between move up by one.
        Nothing that calls it passes from == to. */
    method RotateRight(from: nat, to: nat)
      requires 0 < size == store.Length && from < size && to < size && from != to
      modifies store
      ensures Rotated(old(store[..]), store[..], from, to)
    {
      ghost var was := store[..];
      var temp := store[to];
      var dest := Normalize(to - 1, size);
      while dest != from
        invariant 0 <= dest < size && Dist(from, dest, size) < Dist(from, to, size)
        invariant MovedUp(was, store[..], from, to, dest)
        decreases Dist(from, dest, size)
      {
        MoveOne(was, store[..], from, to, dest);
        store[Normalize(dest + 1, size)] := store[dest];
        dest := Normalize(dest - 1, size);
      }
      MoveLast(was, store[..], from, to);
      store[Normalize(from + 1, size)] := store[from];
      store[from] := temp;
    }

    /** The rotation on the slots: none is lost, none doubled, and each keeps its packet. */
    method Rotate(from: nat, to: nat)
      requires Allocated() && from < size && to < size && from != to
      modifies store
      ensures Allocated()
      ensures Rotated(old(Image()), Image(), from, to)
    {
      ghost var was := store[..];
      RotateRight(from, to);
      RotationPermutes(was, store[..], from, to, Slots);
      forall i | 0 <= i < size
        ensures Image()[i] == old(Image())[RotatedFrom(from, to, i, size)]
      {
        var j := RotatedFrom(from, to, i, size);
        assert store[..][i] == was[j] && old(store[j]) == was[j];
        assert Image()[i] == was[j].Value() == old(was[j].Value());
      }
    }

    /** The end and start moves that follow every new element. */
    method Grow()
      requires Indexes(size, start, end, cnt)
      modifies this`start, this`end, this`cnt
      ensures Indexes(size, start, end, cnt)
      ensures start == StartAfter(old(start), old(cnt), size) && cnt == CountAfter(old(cnt), size)
    {
      end := Normalize(end + 1, size);
      if cnt == size {
        start := Normalize(start + 1, size);
      } else {
        cnt := cnt + 1;
      }
    }

    /** The new element takes the slot at datar_end. */
    method StoreAtEnd(element: Packet)
      requires Shows(Contents) && |element.bytes| <= SlotSize
      modifies this`start, this`end, this`cnt, Slots
      ensures Shows(InsertAt(Contents, |Contents|, element, size))
    {
      ghost var image := Image()[end := element];
      AppendTied(Image(), start, cnt, Contents, element);
      StoreElement(end, element);
      GrowShown(image, InsertAt(Contents, |Contents|, element, size));
    }

    /** The slot at datar_end is rotated to location and takes the new element. */
    method StoreBefore(location: nat, ghost k: nat, element: Packet)
      requires Shows(Contents) && |element.bytes| <= SlotSize
      requires location < size && k == Dist(start, location, size) < cnt
      requires cnt == size ==> location != start
      modifies this`start, this`end, this`cnt, store, Slots
      ensures Shows(InsertAt(Contents, k, element, size))
    {
      ghost var was, s, c, contents := Image(), start, cnt, Contents;
      assert Tied(was, s, c, contents) && end == Normalize(s + c, |was|);
      ghost var rotated := RotateIn(location, element);
      InsertTied(was, rotated, s, c, end, contents, location, k, element, size);
      GrowShown(rotated[location := element], InsertAt(Contents, k, element, size));
    }

    /** The moves of Grow make a stretch show that is tied to them. */
    method GrowShown(ghost image: seq<Packet>, ghost packets: seq<Packet>)
      requires Allocated() && Indexes(size, start, end, cnt) && Image() == image
      requires Tied(image, StartAfter(start, cnt, size), CountAfter(cnt, size), packets)
      modifies this`start, this`end, this`cnt
      ensures Shows(packets)
    {
      Grow();
    }

    method RotateIn(location: nat, element: Packet) returns (ghost rotated: seq<Packet>)
      requires Allocated() && |element.bytes| <= SlotSize
      requires location < size && end < size && location != end
      modifies store, Slots
      ensures Allocated() && Rotated(old(Image()), rotated, location, end)
      ensures Image() == rotated[location := element]
    {
      Rotate(location, end);
      rotated := Image();
      StoreElement(location, element);
    }

    /** RING_STORE: 0 when the element was taken, 1 when it is too old for a full ring. */
    method Store(element: Packet) returns (ret: int)
      requires Valid() && |element.bytes| <= SlotSize
      modifies this, store, Slots
      ensures Valid() && Slots == old(Slots) && SlotSize == old(SlotSize)
      ensures (Contents, ret) == Insert(old(Contents), element, size)
      ensures Offered == old(Offered) + [element]
    {
      ghost var after := Insert(Contents, element, size).0;
      InsertSorted(Contents, element, size);
      RunSnoc(Offered, element, size);
      ret := Place(element);
      Note(after, element);
    }

    /** The record of what is held and was offered. */
    ghost method Note(after: seq<Packet>, element: Packet)
      requires Shows(after) && Sorted(after) && after == Run(Offered + [element], size)
      modifies `Contents, `Offered
      ensures Valid() && Contents == after && Offered == old(Offered) + [element]
    {
      Contents, Offered := after, Offered + [element];
    }

    /** The branches of RING_STORE. */
    method Place(element: Packet) returns (ret: int)
      requires Shows(Contents) && Sorted(Contents) && |element.bytes| <= SlotSize
      modifies this`start, this`end, this`cnt, store, Slots
      ensures Shows(Insert(old(Contents), element, size).0)
      ensures ret == Insert(old(Contents), element, size).1
    {
      if cnt == 0 {
        StoreAtEnd(element);
        return 0;
      }
      var result, location := Search(element.time);
      InsertLocated(Contents, element, result, Dist(start, location, size), size);
      if result == 1 {
        if cnt == size {
          return 1;
        }
        StoreBefore(start, 0, element);
      } else if result == -1 {
        StoreAtEnd(element);
      } else if result == 2 {
        StoreBefore(location, Dist(start, location, size), element);
      } else {
        OverTied(Image(), start, cnt, Contents, location, element);
        StoreElement(location, element);
      }
      return 0;
    }

    /** RING_RETR: the first packet at least one millisecond after the target time, and 0;
        or 1 when there is none. */
    method Retr(targetTime: real) returns (ret: int, element: Packet)
      requires Valid()
      ensures ret == if NextAfter(Contents, targetTime).Some? then 0 else 1
      ensures ret == 0 ==> Some(element) == NextAfter(Contents, targetTime)
    {
      element := Packet(0.0, 0, false, []);
      var result, location := Search(targetTime + 0.001);
      if result >= 0 {
        NextLocated(Contents, targetTime, result, Dist(start, location, size));
        element := RetrElement(location);
        return 0, element;
      } else {
        if cnt > 0 {
          NextLocated(Contents, targetTime, result, Dist(start, location, size));
        }
        return 1, element;
      }
    }

    /** retr_element. */
    method RetrElement(index: nat) returns (element: Packet)
      requires Allocated() && index < size
      ensures element == Image()[index]
    {
      var target := store[index];
      var bytes := if target.packetLen <= |target.sdrPacket| then target.sdrPacket[..target.packetLen] else [];
      element := Packet(target.packetTime, target.packetId, target.valid, bytes);
    }
  }

  /** Insertion at a known place, dropping the oldest when the list was full. */
  function InsertAt(s: seq<Packet>, k: nat, p: Packet, n: nat): seq<Packet>
    requires k <= |s|
  {
    var t := s[..k] + [p] + s[k..];
    if |s| == n then t[1..] else t
  }

  lemma InsertLocated(s: seq<Packet>, p: Packet, status: int, k: int, n: nat)
    requires Sorted(s) && LocatedAt(s, p.time, status, k) && 0 < |s| <= n
    ensures Insert(s, p, n) ==
      if status == 0 then (s[k := p], 0)
      else if status == 1 && |s| == n then (s, 1)
      else (InsertAt(s, if status == -1 then |s| else k, p, n), 0)
  {
  }

  lemma NextLocated(s: seq<Packet>, t: real, status: int, k: int)
    requires Sorted(s) && LocatedAt(s, t + 0.001, status, k)
    ensures NextAfter(s, t) == if status == -1 then None else Some(s[k])
  {
  }

  lemma RunSnoc(ops: seq<Packet>, p: Packet, n: nat)
    ensures Run(ops + [p], n) == Insert(Run(ops, n), p, n).0
  {
    assert (ops + [p])[..|ops|] == ops;
  }

  lemma AppendTied(image: seq<Packet>, start: nat, cnt: nat, contents: seq<Packet>, p: Packet)
    requires Tied(image, start, cnt, contents) && start < |image|
    ensures var n := |image|;
      Tied(image[Normalize(start + cnt, n) := p], StartAfter(start, cnt, n), CountAfter(cnt, n),
           InsertAt(contents, |contents|, p, n))
  {
  }

  lemma OverTied(image: seq<Packet>, start: nat, cnt: nat, contents: seq<Packet>, at: nat, p: Packet)
    requires Tied(image, start, cnt, contents) && start < |image| && at < |image|
    requires 0 <= Dist(start, at, |image|) < cnt
    ensures Tied(image[at := p], start, cnt, contents[Dist(start, at, |image|) := p])
  {
  }

  /** Where the packet at place i after the insertion was before it. */
  lemma InsertedFrom(start: nat, cnt: nat, end: nat, at: nat, k: nat, i: nat, n: nat)
    requires start < n && at < n && i < n && 0 <= k == Dist(start, at, n) < cnt <= n && (cnt == n ==> at != start)
    requires end == Normalize(start + cnt, n) && i != at
    requires Dist(StartAfter(start, cnt, n), i, n) < CountAfter(cnt, n)
    ensures var q := Dist(StartAfter(start, cnt, n), i, n) + (if cnt == n then 1 else 0);
      0 <= q != k && Dist(start, RotatedFrom(at, end, i, n), n) == if q < k then q else q - 1
  {
  }

  lemma InsertTied(image: seq<Packet>, rotated: seq<Packet>, start: nat, cnt: nat, end: nat,
                   contents: seq<Packet>, at: nat, k: nat, p: Packet, n: nat)
    requires n == |image| && Tied(image, start, cnt, contents) && start < n && at < n
    requires 0 <= k == Dist(start, at, n) < cnt && (cnt == n ==> at != start)
    requires end == Normalize(start + cnt, n) && Rotated(image, rotated, at, end)
    ensures Tied(rotated[at := p], StartAfter(start, cnt, n), CountAfter(cnt, n), InsertAt(contents, k, p, n))
  {
    var start', cnt' := StartAfter(start, cnt, n), CountAfter(cnt, n);
    var contents' := InsertAt(contents, k, p, n);
    forall i | 0 <= i < n && Dist(start', i, n) < cnt'
      ensures 0 <= Dist(start', i, n) && rotated[at := p][i] == contents'[Dist(start', i, n)]
    {
      if i != at {
        InsertedFrom(start, cnt, end, at, k, i, n);
      }
    }
  }

  /** The pointers more than one place after dest, up to to, have been moved up. */
  ghost predicate MovedUp<T>(was: seq<T>, now: seq<T>, from: int, to: int, dest: int) {
    var n := |was|;
    && |now| == n && 0 <= from < n && 0 <= to < n && 0 <= dest < n
    && forall i :: 0 <= i < n ==>
         now[i] == was[if Dist(from, dest, n) + 1 < Dist(from, i, n) <= Dist(from, to, n)
                       then RotatedFrom(from, to, i, n) else i]
  }

  lemma DistNext(from: int, dest: int, i: int, n: int)
    requires 0 <= from < n && 0 <= dest < n && 0 <= i < n && Dist(from, dest, n) + 1 < n
    ensures i == Normalize(dest + 1, n) <==> Dist(from, i, n) == Dist(from, dest, n) + 1
  {
  }

  lemma MoveOne<T>(was: seq<T>, now: seq<T>, from: int, to: int, dest: int)
    requires MovedUp(was, now, from, to, dest)
    requires dest != from && Dist(from, dest, |was|) < Dist(from, to, |was|)
    ensures var n := |was|;
      MovedUp(was, now[Normalize(dest + 1, n) := now[dest]], from, to, Normalize(dest - 1, n))
  {
    var n := |was|;
    var next := Normalize(dest + 1, n);
    var then' := now[next := now[dest]];
    forall i | 0 <= i < n
      ensures then'[i] == was[if Dist(from, dest, n) < Dist(from, i, n) <= Dist(from, to, n)
                              then RotatedFrom(from, to, i, n) else i]
    {
      DistNext(from, dest, i, n);
    }
  }

  lemma MoveLast<T>(was: seq<T>, now: seq<T>, from: int, to: int)
    requires MovedUp(was, now, from, to, from) && from != to
    ensures Rotated(was, now[Normalize(from + 1, |was|) := now[from]][from := was[to]], from, to)
  {
    var n := |was|;
    forall i | 0 <= i < n
      ensures now[Normalize(from + 1, n) := now[from]][from := was[to]][i] == was[RotatedFrom(from, to, i, n)]
    {
      DistNext(from, from, i, n);
    }
  }

  /** Rotating moves every pointer somewhere and doubles none. */
  lemma RotationPermutes(s: seq<Slot?>, t: seq<Slot?>, from: nat, to: nat, slots: set<Slot>)
    requires Rotated(s, t, from, to) && Owned(s, slots)
    ensures Owned(t, slots)
  {
    forall x | x in s ensures x in t {
      var i :| 0 <= i < |s| && s[i] == x;
      var j := if i == to then from
               else if Dist(from, i, |s|) < Dist(from, to, |s|) then (if i == |s| - 1 then 0 else i + 1)
               else i;
      assert t[j] == s[i];
    }
  }
}
