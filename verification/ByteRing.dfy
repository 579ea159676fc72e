// The byte ring of src/buffer.c: a bounded FIFO of bytes in a circular buffer.
module ByteRing {
  import opened Bytes

  /** x % n on the values the ring takes it of, all of them in [0, 2n). */
  function Modulo(x: int, n: int): int
    requires 0 <= x < 2 * n
  {
    if x < n then x else x - n
  }

  lemma ModuloIsRemainder(x: int, n: int)
    requires 0 <= x < 2 * n
    ensures Modulo(x, n) == x % n
  {
    assert x / n == if x < n then 0 else 1;
  }

  /** memcpy of src to the place d of dst. */
  method Memcpy(dst: array<byte>, d: nat, src: seq<byte>)
    requires d + |src| <= dst.Length
    modifies dst
    ensures dst[..] == Overwrite(old(dst[..]), d, src)
  {
    forall i | 0 <= i < |src| {
      dst[d + i] := src[i];
    }
  }

  function Overwrite(s: seq<byte>, d: nat, src: seq<byte>): seq<byte>
    requires d + |src| <= |s|
  {
    s[..d] + src + s[d + |src|..]
  }

  /** The stretch of a circular buffer from one index up to another. */
  function Window(s: seq<byte>, from: nat, to: nat): seq<byte>
    requires from < |s| && to < |s|
  {
    if from <= to then s[from..to] else s[from..] + s[..to]
  }

  lemma StoreStraight(s: seq<byte>, rd: nat, wr: nat, data: seq<byte>)
    requires rd < |s| && wr + |data| <= |s| && wr < |s|
    requires |Window(s, rd, wr)| + |data| < |s|
    ensures Window(Overwrite(s, wr, data), rd, Modulo(wr + |data|, |s|)) == Window(s, rd, wr) + data
  {
    var t, end := Overwrite(s, wr, data), wr + |data|;
    if rd <= wr {
      assert t[rd..end] == s[rd..wr] + data;
      if end == |s| {
        assert t[rd..] + t[..0] == t[rd..end];
      }
    } else {
      assert t[rd..] == s[rd..];
      assert t[..end] == s[..wr] + data;
      ConcatAssociative(s[rd..], s[..wr], data);
    }
  }

  /** What the two copies leave in the buffer. */
  lemma WrappedImage(s: seq<byte>, wr: nat, data: seq<byte>, rd: nat)
    requires wr < |s| && |s| - wr < |data| && wr + |data| - |s| <= rd <= wr
    ensures var p, q := |s| - wr, wr + |data| - |s|;
            var t := Overwrite(Overwrite(s, wr, data[..p]), 0, data[p..]);
            |t| == |s| && t[..q] == data[p..] && t[rd..] == s[rd..wr] + data[..p]
  {
    var p, q := |s| - wr, wr + |data| - |s|;
    var u := Overwrite(s, wr, data[..p]);
    assert u == s[..wr] + data[..p];
    assert Overwrite(u, 0, data[p..]) == data[p..] + u[q..];
  }

  lemma StoreWrapped(s: seq<byte>, rd: nat, wr: nat, data: seq<byte>)
    requires rd <= wr < |s| && |s| - wr < |data|
    requires |Window(s, rd, wr)| + |data| < |s|
    ensures var p := |s| - wr;
            var t := Overwrite(Overwrite(s, wr, data[..p]), 0, data[p..]);
            Window(t, rd, wr + |data| - |s|) == Window(s, rd, wr) + data
  {
    var p := |s| - wr;
    WrappedImage(s, wr, data, rd);
    ConcatAssociative(s[rd..wr], data[..p], data[p..]);
    assert data == data[..p] + data[p..];
  }

  lemma OneCopy(b: seq<byte>, x: seq<byte>)
    requires |x| <= |b|
    ensures Overwrite(b, 0, x) == x + b[|x|..]
  {
  }

  lemma TwoCopies(b: seq<byte>, x: seq<byte>, y: seq<byte>)
    requires |x| + |y| <= |b|
    ensures Overwrite(Overwrite(b, 0, x), |x|, y) == x + y + b[|x| + |y|..]
  {
    OneCopy(b, x);
    assert (x + b[|x|..])[|x| + |y|..] == b[|x| + |y|..];
  }

  /** The oldest bytes, as they lie in the buffer. */
  lemma OldestStraight(s: seq<byte>, rd: nat, wr: nat, bytes: nat)
    requires rd < |s| && wr < |s| && bytes <= |Window(s, rd, wr)| && rd + bytes <= |s|
    ensures Window(s, rd, wr)[..bytes] == s[rd..rd + bytes]
  {
  }

  lemma OldestWrapped(s: seq<byte>, rd: nat, wr: nat, bytes: nat)
    requires rd < |s| && wr < |s| && bytes <= |Window(s, rd, wr)| && rd + bytes > |s|
    ensures Window(s, rd, wr)[..bytes] == s[rd..] + s[..rd + bytes - |s|]
  {
  }

  /** The copies of RING_RETR and RING_VIEW, in one part and in two. */
  method CopyOne(dst: array<byte>, x: seq<byte>)
    requires |x| <= dst.Length
    modifies dst
    ensures dst[..] == x + old(dst[..])[|x|..]
  {
    OneCopy(dst[..], x);
    Memcpy(dst, 0, x);
  }

  method CopyTwo(dst: array<byte>, x: seq<byte>, y: seq<byte>)
    requires |x| + |y| <= dst.Length
    modifies dst
    ensures dst[..] == x + y + old(dst[..])[|x| + |y|..]
  {
    TwoCopies(dst[..], x, y);
    Memcpy(dst, 0, x);
    Memcpy(dst, |x|, y);
  }

  lemma HeadAndRest(t: seq<byte>, x: seq<byte>, rest: seq<byte>)
    requires t == x + rest
    ensures t[..|x|] == x && t[|x|..] == rest
  {
  }

  class Ring {
    const ring: array<byte>
    const bfrsize: nat
    var readptr: nat
    var writeptr: nat

    ghost predicate Valid()
      reads this
    {
      bfrsize == ring.Length && readptr < bfrsize && writeptr < bfrsize
    }

    /** The bytes on the ring, the oldest first. */
    ghost function Contents(): seq<byte>
      reads this, ring
      requires Valid()
    {
      Window(ring[..], readptr, writeptr)
    }

    /** How many bytes the ring can hold. */
    ghost function Capacity(): int {
      bfrsize - 1
    }

    constructor Alloc(bytes: nat)
      ensures Valid() && fresh(ring) && Capacity() == bytes && Contents() == []
    {
      ring := new byte[bytes + 1];
      bfrsize := bytes + 1;
      readptr, writeptr := 0, 0;
    }

    method Init()
      requires Valid()
      modifies this`readptr, this`writeptr
      ensures Valid() && Contents() == []
    {
      readptr, writeptr := 0, 0;
    }

    method BytesFree() returns (free: nat)
      requires Valid()
      ensures free == Capacity() - |Contents()|
    {
      free := Modulo(readptr + bfrsize - 1 - writeptr, bfrsize);
    }

    method BytesStored() returns (stored: nat)
      requires Valid()
      ensures stored == |Contents()|
    {
      stored := Modulo(writeptr + bfrsize - readptr, bfrsize);
    }

    method IsFull() returns (full: bool)
      requires Valid()
      ensures full <==> |Contents()| == Capacity()
    {
      full := Modulo(writeptr + 1, bfrsize) == readptr;
    }

    method IsEmpty() returns (empty: bool)
      requires Valid()
      ensures empty <==> Contents() == []
    {
      empty := readptr == writeptr;
    }

    method Store(bfr: seq<byte>) returns (rv: int)
      requires Valid()
      modifies this`writeptr, ring
      ensures Valid()
      ensures rv == if old(|Contents()|) + |bfr| <= Capacity() then 0 else -1
      ensures Contents() == if rv == 0 then old(Contents()) + bfr else old(Contents())
    {
      var free := BytesFree();
      if |bfr| > free {
        rv := -1;
      } else {
        CopyIn(bfr);
        writeptr := Modulo(writeptr + |bfr|, bfrsize);
        rv := 0;
      }
    }

    /** The copying of RING_STORE, in two parts if it wraps. */
    method CopyIn(bfr: seq<byte>)
      requires Valid() && |Contents()| + |bfr| <= Capacity()
      modifies ring
      ensures 0 <= Modulo(writeptr + |bfr|, bfrsize) < bfrsize
      ensures Window(ring[..], readptr, Modulo(writeptr + |bfr|, bfrsize)) == old(Contents()) + bfr
    {
      ghost var was := ring[..];
      var partial := bfrsize - writeptr;
      if |bfr| > partial {
        StoreWrapped(was, readptr, writeptr, bfr);
        Memcpy(ring, writeptr, bfr[..partial]);
        Memcpy(ring, 0, bfr[partial..]);
      } else {
        StoreStraight(was, readptr, writeptr, bfr);
        Memcpy(ring, writeptr, bfr);
      }
    }

    method View(bfr: array<byte>, bytes: nat) returns (rv: int)
      requires Valid() && bfr != ring
      requires bytes <= |Contents()| ==> bytes <= bfr.Length
      modifies bfr
      ensures rv == if bytes <= |Contents()| then 0 else -1
      ensures rv == 0 ==> bfr[..bytes] == Contents()[..bytes] && bfr[bytes..] == old(bfr[bytes..])
      ensures rv == -1 ==> bfr[..] == old(bfr[..])
    {
      var stored := BytesStored();
      if bytes > 0 && bytes > stored {
        return -1;
      }
      ghost var rest, oldest := bfr[..][bytes..], Contents()[..bytes];
      var partial := bfrsize - readptr;
      if bytes > partial {
        OldestWrapped(ring[..], readptr, writeptr, bytes);
        CopyTwo(bfr, ring[..][readptr..], ring[..][..bytes - partial]);
      } else {
        OldestStraight(ring[..], readptr, writeptr, bytes);
        CopyOne(bfr, ring[..][readptr..readptr + bytes]);
      }
      HeadAndRest(bfr[..], oldest, rest);
      return 0;
    }

    method Retr(bfr: array<byte>, bytes: nat) returns (rv: int)
      requires Valid() && bfr != ring
      requires bytes <= |Contents()| ==> bytes <= bfr.Length
      modifies this`readptr, bfr
      ensures Valid()
      ensures rv == if bytes <= old(|Contents()|) then 0 else -1
      ensures rv == 0 ==> bfr[..bytes] == old(Contents()[..bytes]) && bfr[bytes..] == old(bfr[bytes..])
      ensures rv == -1 ==> bfr[..] == old(bfr[..])
      ensures Contents() == if rv == 0 then old(Contents())[bytes..] else old(Contents())
    {
      rv := View(bfr, bytes);
      if rv == 0 {
        Advance(bytes);
      }
    }

    method Delete(bytes: nat) returns (rv: int)
      requires Valid()
      modifies this`readptr
      ensures Valid()
      ensures rv == if 0 < bytes <= old(|Contents()|) then 0 else -1
      ensures Contents() == if rv == 0 then old(Contents())[bytes..] else old(Contents())
    {
      var stored := BytesStored();
      if bytes > 0 && bytes <= stored {
        Advance(bytes);
        return 0;
      } else {
        return -1;
      }
    }

    /** The readptr update RING_RETR and RING_DELETE share. */
    method Advance(bytes: nat)
      requires Valid() && bytes <= |Contents()|
      modifies this`readptr
      ensures Valid() && Contents() == old(Contents())[bytes..]
    {
      readptr := Modulo(readptr + bytes, bfrsize);
    }
  }
}
