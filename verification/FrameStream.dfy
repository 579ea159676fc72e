// Streams of well-formed frames: check_data recovers them however the bytes are chunked.
module FrameStream {
  import opened Bytes
  import opened ByteSearch
  import opened ChannelInfo
  import opened FrameDecoder

  /** A frame the peer may send: an acceptable channel text, or an A/D frame of any type,
      with any payload, that fits the receive ring. */
  ghost predicate IsWireFrame(f: seq<byte>) {
    IsConfigText(f) || (IsFrame(f) && |f| <= BFRSIZE)
  }

  ghost predicate AllWireFrames(frames: seq<seq<byte>>) {
    forall f :: f in frames ==> IsWireFrame(f)
  }

  /** An A/D frame whose length field has a zero low byte: the client aborts on it. */
  ghost predicate IsFatal(f: seq<byte>) {
    |f| >= PREHDRLEN && ADCTOKEN <= f && f[4] == 0 && |f| == FrameLength(f)
  }

  ghost predicate AllWireOrFatal(frames: seq<seq<byte>>) {
    forall f :: f in frames ==> IsWireFrame(f) || IsFatal(f)
  }

  /** The frames before the first fatal one. */
  ghost function BeforeFatal(frames: seq<seq<byte>>): seq<seq<byte>> {
    if frames == [] || IsFatal(frames[0]) then [] else [frames[0]] + BeforeFatal(frames[1..])
  }

  /** What may follow good frames: nothing, or bytes that start with a fatal one. */
  ghost predicate Tail(tail: seq<byte>) {
    tail == [] || (|tail| >= PREHDRLEN && ADCTOKEN <= tail && tail[4] == 0)
  }

  function PieceOf(f: seq<byte>): Piece {
    if ADCTOKEN <= f then Data(f) else Config(f)
  }

  function PiecesOf(frames: seq<seq<byte>>): seq<Piece> {
    if frames == [] then [] else [PieceOf(frames[0])] + PiecesOf(frames[1..])
  }

  /** The frames that some received bytes complete, the unfinished tail, and the frames
      still to come. */
  datatype Split = Split(done: seq<seq<byte>>, rest: seq<byte>, todo: seq<seq<byte>>)

  function SplitFrames(frames: seq<seq<byte>>, bytes: seq<byte>): Split {
    if frames == [] || |bytes| < |frames[0]| then Split([], bytes, frames)
    else
      var s := SplitFrames(frames[1..], bytes[|frames[0]|..]);
      s.(done := [frames[0]] + s.done)
  }

  lemma {:induction false} SplitFramesMeaning(frames: seq<seq<byte>>, tail: seq<byte>, bytes: seq<byte>)
    requires bytes <= Flatten(frames) + tail
    ensures var s := SplitFrames(frames, bytes);
      && s.done + s.todo == frames && Flatten(s.done) + s.rest == bytes
      && s.rest <= Flatten(s.todo) + tail
      && (if s.todo == [] then s.rest <= tail else s.rest < s.todo[0])
  {
    if frames == [] {
      NothingBefore(tail);
      NothingBefore(bytes);
    } else if |bytes| < |frames[0]| {
      HeadPrefix(frames, tail, bytes);
      NothingBefore(bytes);
    } else {
      var f := frames[0];
      HeadFrame(frames, tail, bytes);
      SplitFramesMeaning(frames[1..], tail, bytes[|f|..]);
      var s := SplitFrames(frames[1..], bytes[|f|..]);
      FlattenCons(f, s.done);
      ConcatAssociative(f, Flatten(s.done), s.rest);
      assert [f] + s.done + s.todo == frames;
    }
  }

  lemma NothingBefore(x: seq<byte>)
    ensures Flatten([]) + x == x
  {
  }

  /** Bytes shorter than the first frame are a proper prefix of it. */
  lemma HeadPrefix(frames: seq<seq<byte>>, tail: seq<byte>, buf: seq<byte>)
    requires frames != [] && buf <= Flatten(frames) + tail && |buf| < |frames[0]|
    ensures buf < frames[0]
  {
    assert buf == (Flatten(frames) + tail)[..|buf|] == frames[0][..|buf|];
  }

  lemma HeadFrame(frames: seq<seq<byte>>, tail: seq<byte>, buf: seq<byte>)
    requires frames != [] && buf <= Flatten(frames) + tail && |buf| >= |frames[0]|
    ensures buf == frames[0] + buf[|frames[0]|..] && buf[|frames[0]|..] <= Flatten(frames[1..]) + tail
  {
    var n, all, later := |frames[0]|, Flatten(frames) + tail, Flatten(frames[1..]) + tail;
    ConcatAssociative(frames[0], Flatten(frames[1..]), tail);
    assert all == frames[0] + later;
    assert all[..n] == frames[0] && all[n..] == later;
    assert buf == all[..|buf|];
    assert buf[..n] == all[..n] && buf[n..] == all[n..][..|buf| - n];
  }

  lemma {:induction false} SplitInTwo(frames: seq<seq<byte>>, a: seq<byte>, b: seq<byte>)
    ensures var s, t := SplitFrames(frames, a), SplitFrames(frames, a + b);
      var u := SplitFrames(s.todo, s.rest + b);
      t == Split(s.done + u.done, u.rest, u.todo)
  {
    if frames != [] && |a| >= |frames[0]| {
      var n := |frames[0]|;
      assert (a + b)[n..] == a[n..] + b;
      SplitInTwo(frames[1..], a[n..], b);
    }
  }

  // ----- one round on a buffer that starts at a frame -----

  lemma OccursInPrefix(buf: seq<byte>, f: seq<byte>, needle: seq<byte>)
    requires buf <= f && Leftmost(f, needle) == -1
    ensures Leftmost(buf, needle) == -1
  {
    var r := Leftmost(buf, needle);
    if r != -1 {
      assert buf[r..r + |needle|] == f[r..r + |needle|];
      assert OccursAt(f, needle, r);
    }
  }

  lemma FoundAtStart(buf: seq<byte>, needle: seq<byte>)
    requires needle <= buf
    ensures Leftmost(buf, needle) == 0
  {
    assert OccursAt(buf, needle, 0);
  }

  lemma NotAtStart(buf: seq<byte>)
    requires CHANTOKEN <= buf
    ensures Leftmost(buf, ADCTOKEN) != 0
  {
    assert buf[0..4][0] != ADCTOKEN[0];
  }

  lemma ConfigRound(f: seq<byte>, rest: seq<byte>)
    requires IsConfigText(f)
    ensures OneRound(f + rest, false) == Round([PieceOf(f)], rest, Again)
  {
    var buf := f + rest;
    assert CHANTOKEN <= buf;
    FoundAtStart(buf, CHANTOKEN);
    NotAtStart(buf);
    assert buf[0..] == buf;
    assert buf[..CHANINFOLEN] == buf[0..CHANINFOLEN] == f && buf[CHANINFOLEN..] == rest;
  }

  lemma DataRound(f: seq<byte>, rest: seq<byte>)
    requires IsFrame(f)
    ensures OneRound(f + rest, false) == Round([PieceOf(f)], rest, Again)
  {
    var buf := f + rest;
    assert ADCTOKEN <= buf;
    FoundAtStart(buf, ADCTOKEN);
    assert buf[0..] == buf;
    assert FrameLength(buf) == |f|;
    assert buf[..|f|] == f && buf[|f|..] == rest;
  }

  lemma TailRound(buf: seq<byte>, f: seq<byte>)
    requires IsWireFrame(f) && buf < f
    ensures OneRound(buf, false) == Round([], buf, Stop)
  {
    if IsConfigText(f) {
      OccursInPrefix(buf, f, ADCTOKEN);
    } else if |buf| >= 4 {
      assert buf[..4] == f[..4];
      FoundAtStart(buf, ADCTOKEN);
      assert buf[0..] == buf;
      if |buf| > PREHDRLEN {
        assert buf[4] == f[4] && buf[5] == f[5];
      }
    }
  }

  // ----- the whole pass, and whole runs -----

  lemma FrameRound(f: seq<byte>, rest: seq<byte>)
    requires IsWireFrame(f)
    ensures OneRound(f + rest, false) == Round([PieceOf(f)], rest, Again)
  {
    if IsConfigText(f) { ConfigRound(f, rest); } else { DataRound(f, rest); }
  }

  /** After the good frames: more than a pre-header of a fatal one aborts. */
  lemma FatalRound(buf: seq<byte>, tail: seq<byte>)
    requires Tail(tail) && buf <= tail
    ensures OneRound(buf, false) == Round([], buf, if |buf| > PREHDRLEN then Abort else Stop)
  {
    if |buf| >= 4 {
      assert buf[..4] == tail[..4];
      FoundAtStart(buf, ADCTOKEN);
      assert buf[0..] == buf;
    }
  }

  lemma {:induction false} RoundsOnFrames(frames: seq<seq<byte>>, tail: seq<byte>, buf: seq<byte>)
    requires AllWireFrames(frames) && Tail(tail) && buf <= Flatten(frames) + tail
    ensures var s := SplitFrames(frames, buf);
      Rounds(buf, false) == Outcome(PiecesOf(s.done), s.rest, s.todo == [] && |s.rest| > PREHDRLEN)
  {
    if frames == [] {
      NothingBefore(tail);
      FatalRound(buf, tail);
    } else {
      var f := frames[0];
      assert IsWireFrame(f);
      if |buf| < |f| {
        HeadPrefix(frames, tail, buf);
        TailRound(buf, f);
      } else {
        HeadFrame(frames, tail, buf);
        var rest := buf[|f|..];
        FrameRound(f, rest);
        RoundsOnFrames(frames[1..], tail, rest);
        assert ([f] + SplitFrames(frames[1..], rest).done)[1..] == SplitFrames(frames[1..], rest).done;
      }
    }
  }

  /** A run of the client: each chunk is put on the ring and check_data is called. */
  function Feed(ring: seq<byte>, chunks: seq<seq<byte>>): Outcome
    decreases |chunks|
  {
    if chunks == [] then Outcome([], ring, false)
    else
      var o := CheckData(ring + chunks[0], false);
      if o.aborted then o else Prepend(o.pieces, Feed(o.rest, chunks[1..]))
  }

  /** On any bytes, however cut, a run loses, invents and reorders nothing, and everything it
      stores was a whole frame of the stream; an abort leaves only the later chunks unread. */
  lemma {:induction false} FeedConserves(ring: seq<byte>, chunks: seq<seq<byte>>)
    ensures var o := Feed(ring, chunks);
      && PiecesOk(o.pieces) && Raw(o.pieces) + o.rest <= ring + Flatten(chunks)
      && (!o.aborted ==> Raw(o.pieces) + o.rest == ring + Flatten(chunks))
    decreases |chunks|
  {
    if chunks == [] {
      assert Raw([]) + ring == ring + Flatten(chunks);
    } else {
      var o, later := CheckData(ring + chunks[0], false), Flatten(chunks[1..]);
      CheckDataOk(ring + chunks[0], false);
      ConcatAssociative(ring, chunks[0], later);
      if !o.aborted {
        FeedConserves(o.rest, chunks[1..]);
        var f := Feed(o.rest, chunks[1..]);
        RawAppend(o.pieces, f.pieces);
        ConcatAssociative(Raw(o.pieces), o.rest, later);
        ConcatAssociative(Raw(o.pieces), Raw(f.pieces), f.rest);
        PrefixAfter(Raw(o.pieces), Raw(f.pieces) + f.rest, o.rest + later);
      }
    }
  }

  lemma PrefixAfter(a: seq<byte>, b: seq<byte>, c: seq<byte>)
    ensures b <= c ==> a + b <= a + c
  {
  }

  lemma {:induction false} PiecesOfAppend(a: seq<seq<byte>>, b: seq<seq<byte>>)
    ensures PiecesOf(a + b) == PiecesOf(a) + PiecesOf(b)
  {
    if a == [] {
      assert a + b == b;
    } else {
      PiecesOfAppend(a[1..], b);
      assert (a + b)[1..] == a[1..] + b;
    }
  }

  /** After a pass the rest of the ring and the bytes to come belong to the frames to come. */
  lemma AfterPass(frames: seq<seq<byte>>, tail: seq<byte>, now: seq<byte>, later: seq<byte>)
    requires now + later <= Flatten(frames) + tail
    ensures var s := SplitFrames(frames, now);
      && s.rest + later <= Flatten(s.todo) + tail && SplitFrames(s.todo, s.rest) == Split([], s.rest, s.todo)
      && s.done + s.todo == frames
  {
    SplitFramesMeaning(frames, tail, now);
    var s := SplitFrames(frames, now);
    FlattenAppend(s.done, s.todo);
    ConcatAssociative(Flatten(s.done), Flatten(s.todo), tail);
    ConcatAssociative(Flatten(s.done), s.rest, later);
    PrefixDrop(Flatten(s.done), s.rest + later, Flatten(s.todo) + tail);
  }

  lemma PrefixDrop(a: seq<byte>, b: seq<byte>, c: seq<byte>)
    requires a + b <= a + c
    ensures b <= c
  {
    assert b == (a + b)[|a|..] && c == (a + c)[|a|..];
  }

  /** What a run over the given frames and tail has done when some bytes have arrived. */
  ghost predicate Decoded(o: Outcome, frames: seq<seq<byte>>, bytes: seq<byte>) {
    var s := SplitFrames(frames, bytes);
    && (o.aborted <==> s.todo == [] && |s.rest| > PREHDRLEN)
    && (if o.aborted then o.pieces == PiecesOf(frames) else o == Outcome(PiecesOf(s.done), s.rest, false))
  }

  lemma PassOnFrames(frames: seq<seq<byte>>, tail: seq<byte>, now: seq<byte>, later: seq<byte>)
    requires AllWireFrames(frames) && Tail(tail) && now + later <= Flatten(frames) + tail
    ensures var s := SplitFrames(frames, now);
      CheckData(now, false) == Outcome(PiecesOf(s.done), s.rest, s.todo == [] && |s.rest| > PREHDRLEN)
  {
    assert now <= now + later;
    RoundsOnFrames(frames, tail, now);
  }

  /** A pass that takes the frames completed now, and a run that decodes what comes later. */
  lemma DecodedInTwo(frames: seq<seq<byte>>, now: seq<byte>, later: seq<byte>, p: Outcome, q: Outcome)
    requires var s := SplitFrames(frames, now);
      && s.done + s.todo == frames
      && p == Outcome(PiecesOf(s.done), s.rest, s.todo == [] && |s.rest| > PREHDRLEN)
      && (!p.aborted ==> Decoded(q, s.todo, s.rest + later))
    ensures Decoded(if p.aborted then p else Prepend(p.pieces, q), frames, now + later)
  {
    var s := SplitFrames(frames, now);
    SplitInTwo(frames, now, later);
    PiecesOfAppend(s.done, s.todo);
    PiecesOfAppend(s.done, SplitFrames(s.todo, s.rest + later).done);
    if p.aborted {
      NothingAfter(s.done);
    }
  }

  lemma NothingAfter<T>(x: seq<T>)
    ensures x + [] == x
  {
  }

  lemma {:induction false} FeedOnFrames(frames: seq<seq<byte>>, tail: seq<byte>, ring: seq<byte>,
                                        chunks: seq<seq<byte>>)
    requires AllWireFrames(frames) && Tail(tail) && ring + Flatten(chunks) <= Flatten(frames) + tail
    requires SplitFrames(frames, ring) == Split([], ring, frames) && (frames == [] ==> |ring| <= PREHDRLEN)
    ensures Decoded(Feed(ring, chunks), frames, ring + Flatten(chunks))
    decreases |chunks|
  {
    if chunks == [] {
      NothingAfter(ring);
    } else {
      var now, later := ring + chunks[0], Flatten(chunks[1..]);
      var p, s := CheckData(now, false), SplitFrames(frames, now);
      ConcatAssociative(ring, chunks[0], later);
      PassOnFrames(frames, tail, now, later);
      AfterPass(frames, tail, now, later);
      if !p.aborted {
        FeedOnFrames(s.todo, tail, s.rest, chunks[1..]);
      }
      DecodedInTwo(frames, now, later, p, Feed(p.rest, chunks[1..]));
    }
  }

  lemma SplitNothing(frames: seq<seq<byte>>)
    requires AllWireFrames(frames)
    ensures SplitFrames(frames, []) == Split([], [], frames)
  {
    if frames != [] {
      assert IsWireFrame(frames[0]);
    }
  }

  /** A run that starts with an empty ring. */
  lemma FeedFresh(frames: seq<seq<byte>>, tail: seq<byte>, chunks: seq<seq<byte>>)
    requires AllWireFrames(frames) && Tail(tail) && Flatten(chunks) <= Flatten(frames) + tail
    ensures Decoded(Feed([], chunks), frames, Flatten(chunks))
  {
    SplitNothing(frames);
    NothingBefore(Flatten(chunks));
    FeedOnFrames(frames, tail, [], chunks);
  }

  lemma {:induction false} BeforeFatalMeaning(frames: seq<seq<byte>>)
    requires AllWireOrFatal(frames)
    ensures var g := BeforeFatal(frames);
      && AllWireFrames(g) && g <= frames && (|g| < |frames| ==> IsFatal(frames[|g|]))
      && Tail(Flatten(frames[|g|..])) && Flatten(frames) == Flatten(g) + Flatten(frames[|g|..])
      && (forall k :: 0 <= k < |g| ==> !IsFatal(frames[k]))
  {
    if frames == [] || IsFatal(frames[0]) {
      assert frames[0..] == frames;
      NothingBefore(Flatten(frames));
    } else {
      var g := BeforeFatal(frames[1..]);
      BeforeFatalMeaning(frames[1..]);
      assert frames[1..][|g|..] == frames[|g| + 1..];
      assert frames == [frames[0]] + frames[1..];
      FlattenCons(frames[0], g);
      ConcatAssociative(frames[0], Flatten(g), Flatten(frames[|g| + 1..]));
    }
  }

  lemma FirstFits(frames: seq<seq<byte>>)
    ensures frames != [] ==> |frames[0]| <= |Flatten(frames)|
  {
  }

  /** More than a pre-header after the frames has arrived. */
  lemma PastFrames(frames: seq<seq<byte>>, tail: seq<byte>, bytes: seq<byte>)
    requires bytes <= Flatten(frames) + tail
    ensures var s := SplitFrames(frames, bytes);
      s.todo == [] && |s.rest| > PREHDRLEN <==> |bytes| > |Flatten(frames)| + PREHDRLEN
  {
    SplitFramesMeaning(frames, tail, bytes);
    var s := SplitFrames(frames, bytes);
    FlattenAppend(s.done, s.todo);
    FirstFits(s.todo);
  }

  /** The unfinished frame leaves room on the ring. */
  lemma RestIsShort(frames: seq<seq<byte>>, tail: seq<byte>, bytes: seq<byte>)
    requires AllWireFrames(frames) && bytes <= Flatten(frames) + tail
    requires |bytes| <= |Flatten(frames)| + PREHDRLEN
    ensures var s := SplitFrames(frames, bytes);
      s.done <= frames && Flatten(s.done) + s.rest == bytes && |s.rest| < BFRSIZE
  {
    SplitFramesMeaning(frames, tail, bytes);
    var s := SplitFrames(frames, bytes);
    if s.todo == [] {
      NothingAfter(s.done);
    } else {
      assert s.todo[0] in frames && IsWireFrame(s.todo[0]);
    }
  }

  /** However the bytes of a list of frames are cut into chunks: when the client does not
      abort, it takes off exactly the frames before the first fatal one that were received
      whole, in order and byte for byte, and the ring holds exactly what follows them; it
      aborts exactly when more than a pre-header of that fatal frame has been received, and
      has then taken off all frames before it. */
  lemma ChunkedDecode(frames: seq<seq<byte>>, chunks: seq<seq<byte>>)
    requires AllWireOrFatal(frames) && Flatten(chunks) <= Flatten(frames)
    ensures var g, o, bytes := BeforeFatal(frames), Feed([], chunks), Flatten(chunks);
      var s := SplitFrames(g, bytes);
      && (o.aborted <==> |bytes| > |Flatten(g)| + PREHDRLEN)
      && (if o.aborted then o.pieces == PiecesOf(g)
          else && o == Outcome(PiecesOf(s.done), s.rest, false)
               && s.done <= g && Flatten(s.done) + s.rest == bytes && |s.rest| < BFRSIZE)
  {
    var g, bytes := BeforeFatal(frames), Flatten(chunks);
    BeforeFatalMeaning(frames);
    var tail := Flatten(frames[|g|..]);
    FeedFresh(g, tail, chunks);
    PastFrames(g, tail, bytes);
    if |bytes| <= |Flatten(g)| + PREHDRLEN {
      RestIsShort(g, tail, bytes);
    }
  }

  lemma FlattenLonger(frames: seq<seq<byte>>, i: nat, j: nat)
    requires i <= j <= |frames|
    ensures |Flatten(frames[..i])| <= |Flatten(frames[..j])|
  {
    assert frames[..j] == frames[..i] + frames[i..j];
    FlattenAppend(frames[..i], frames[i..j]);
  }

  /** The client aborts exactly when more than a pre-header of some fatal frame has been
      received. */
  lemma AbortsIff(frames: seq<seq<byte>>, chunks: seq<seq<byte>>)
    requires AllWireOrFatal(frames) && Flatten(chunks) <= Flatten(frames)
    ensures Feed([], chunks).aborted <==>
      exists z :: 0 <= z < |frames| && IsFatal(frames[z]) && |Flatten(frames[..z])| + PREHDRLEN < |Flatten(chunks)|
  {
    var g := BeforeFatal(frames);
    ChunkedDecode(frames, chunks);
    BeforeFatalMeaning(frames);
    assert frames[..|g|] == g;
    if z :| 0 <= z < |frames| && IsFatal(frames[z]) && |Flatten(frames[..z])| + PREHDRLEN < |Flatten(chunks)| {
      FlattenLonger(frames, |g|, z);
    }
  }

  lemma {:induction false} NoneFatal(frames: seq<seq<byte>>)
    requires AllWireFrames(frames)
    ensures BeforeFatal(frames) == frames
  {
    if frames != [] {
      assert frames[0] in frames;
      NotFatal(frames[0]);
      NoneFatal(frames[1..]);
    }
  }

  lemma NotFatal(f: seq<byte>)
    requires IsWireFrame(f)
    ensures !IsFatal(f)
  {
    if IsConfigText(f) {
      assert f[..5][0] == CHANTOKEN[0] && f[0] != ADCTOKEN[0];
    }
  }

  /** Without fatal frames the client never aborts. */
  lemma WireFramesDecode(frames: seq<seq<byte>>, chunks: seq<seq<byte>>)
    requires AllWireFrames(frames) && Flatten(chunks) <= Flatten(frames)
    ensures var s := SplitFrames(frames, Flatten(chunks));
      && Feed([], chunks) == Outcome(PiecesOf(s.done), s.rest, false)
      && s.done <= frames && s.done + s.todo == frames && Flatten(s.done) + s.rest == Flatten(chunks)
      && (s.todo != [] ==> s.rest < s.todo[0])
  {
    NoneFatal(frames);
    ChunkedDecode(frames, chunks);
    assert Flatten(frames) + [] == Flatten(frames);
    SplitFramesMeaning(frames, [], Flatten(chunks));
  }

  /** When all the bytes have arrived, so have all the frames. */
  lemma AllArrived(frames: seq<seq<byte>>, chunks: seq<seq<byte>>)
    requires AllWireFrames(frames) && Flatten(chunks) == Flatten(frames)
    ensures Feed([], chunks) == Outcome(PiecesOf(frames), [], false)
  {
    WireFramesDecode(frames, chunks);
    var s := SplitFrames(frames, Flatten(chunks));
    FlattenAppend(s.done, s.todo);
    assert |Flatten(s.todo)| == |s.rest|;
    FirstFits(s.todo);
    assert s.done + [] == s.done;
  }

  /** The packets stored from whole frames are the type-3 frames with a good checksum. */
  function StoredFrames(frames: seq<seq<byte>>): seq<seq<byte>> {
    if frames == [] then []
    else
      var f := frames[|frames| - 1];
      StoredFrames(frames[..|frames| - 1]) + (if IsStored(PieceOf(f)) then [f] else [])
  }

  lemma {:induction false} StoredImagesOfFrames(frames: seq<seq<byte>>)
    ensures StoredImages(PiecesOf(frames)) == StoredFrames(frames)
  {
    if frames == [] {
    } else {
      var a, f := frames[..|frames| - 1], frames[|frames| - 1];
      assert frames == a + [f];
      PiecesOfAppend(a, [f]);
      assert PiecesOf([f]) == [PieceOf(f)];
      StoredImagesOfFrames(a);
    }
  }
}
