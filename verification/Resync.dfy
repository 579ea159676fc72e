// How check_data finds its way back: bytes before the first token, refused texts, inhibited passes.
module Resync {
  import opened Bytes
  import opened ByteSearch
  import opened ChannelInfo
  import opened FrameDecoder
  import opened FrameStream

  /** No token begins before the frame. */
  ghost predicate NoTokenBefore(junk: seq<byte>, f: seq<byte>) {
    forall i :: 0 <= i < |junk| ==> !OccursAt(junk + f, ADCTOKEN, i) && !OccursAt(junk + f, CHANTOKEN, i)
  }

  /** What lies before the frame looks the same when the frame is cut off or goes on. */
  lemma SamePrefix(junk: seq<byte>, f: seq<byte>, buf: seq<byte>, needle: seq<byte>, i: nat)
    requires buf <= junk + f || junk + f <= buf
    requires OccursAt(buf, needle, i) && i + |needle| <= |junk| + |f|
    ensures OccursAt(junk + f, needle, i)
  {
    assert buf[i..i + |needle|] == (junk + f)[i..i + |needle|];
  }

  lemma NotEarlier(junk: seq<byte>, f: seq<byte>, buf: seq<byte>, needle: seq<byte>)
    requires NoTokenBefore(junk, f) && (needle == ADCTOKEN || needle == CHANTOKEN) && |f| >= 5
    requires buf <= junk + f || junk + f <= buf
    ensures Leftmost(buf, needle) == -1 || Leftmost(buf, needle) >= |junk|
  {
    var r := Leftmost(buf, needle);
    if 0 <= r < |junk| {
      SamePrefix(junk, f, buf, needle, r);
    }
  }

  /** A token at the start of what follows is the leftmost one. */
  lemma FoundAfter(junk: seq<byte>, f: seq<byte>, buf: seq<byte>, needle: seq<byte>)
    requires NoTokenBefore(junk, f) && (needle == ADCTOKEN || needle == CHANTOKEN) && |f| >= 5
    requires buf <= junk + f || junk + f <= buf
    requires |junk| <= |buf| && needle <= buf[|junk|..]
    ensures Leftmost(buf, needle) == |junk|
  {
    NotEarlier(junk, f, buf, needle);
    assert buf[|junk|..|junk| + |needle|] == needle;
    assert OccursAt(buf, needle, |junk|);
  }

  lemma WireStarts(f: seq<byte>)
    requires IsWireFrame(f)
    ensures |f| >= 9 && (IsConfigText(f) || ADCTOKEN <= f) && !(CHANTOKEN <= f && ADCTOKEN <= f)
  {
    if CHANTOKEN <= f {
      assert f[0] == CHANTOKEN[0] && f[0] != ADCTOKEN[0];
    }
  }

  /** A whole frame after bytes without a token: those are dropped and the frame is taken. */
  lemma JunkThenFrame(junk: seq<byte>, f: seq<byte>, rest: seq<byte>)
    requires junk != [] && IsWireFrame(f) && NoTokenBefore(junk, f)
    ensures OneRound(junk + (f + rest), false) == Round([Junk(junk), PieceOf(f)], rest, Again)
  {
    var buf := junk + (f + rest);
    WireStarts(f);
    ConcatAssociative(junk, f, rest);
    AfterJunk(junk, f + rest);
    assert (f + rest)[..|f|] == f && (f + rest)[|f|..] == rest;
    if IsConfigText(f) {
      assert CHANTOKEN <= f + rest;
      FoundAfter(junk, f, buf, CHANTOKEN);
      NotEarlier(junk, f, buf, ADCTOKEN);
      assert (f + rest)[..4][0] == CHANTOKEN[0];
      NotThere(buf, |junk|, ADCTOKEN, CHANTOKEN[0]);
      assert buf[|junk|..|junk| + CHANINFOLEN] == f;
    } else {
      assert ADCTOKEN <= f + rest;
      FoundAfter(junk, f, buf, ADCTOKEN);
      NotEarlier(junk, f, buf, CHANTOKEN);
      NotThere(buf, |junk|, CHANTOKEN, ADCTOKEN[0]);
      assert FrameLength(f + rest) == |f|;
    }
  }

  lemma AfterJunk(junk: seq<byte>, t: seq<byte>)
    ensures (junk + t)[|junk|..] == t && (junk + t)[..|junk|] == junk
  {
  }

  /** A needle is not found where its first letter does not stand. */
  lemma NotThere(buf: seq<byte>, at: nat, needle: seq<byte>, b: byte)
    requires at < |buf| && buf[at] == b && needle != [] && needle[0] != b
    ensures Leftmost(buf, needle) != at
  {
    if OccursAt(buf, needle, at) {
      FirstLetter(buf, needle, at);
    }
  }

  lemma FirstLetter(buf: seq<byte>, needle: seq<byte>, at: nat)
    requires OccursAt(buf, needle, at) && needle != []
    ensures buf[at] == needle[0]
  {
    assert buf[at..at + |needle|][0] == buf[at];
  }

  /** Not enough of the frame has come to be sure of it: nothing happens, or what lies before
      it is dropped. */
  lemma JunkThenPart(junk: seq<byte>, f: seq<byte>, buf: seq<byte>)
    requires junk != [] && IsWireFrame(f) && NoTokenBefore(junk, f) && buf < junk + f
    ensures var r := OneRound(buf, false);
      r == Round([], buf, Stop) || (|junk| <= |buf| && r == Round([Junk(junk)], buf[|junk|..], Stop))
  {
    WireStarts(f);
    NotEarlier(junk, f, buf, ADCTOKEN);
    NotEarlier(junk, f, buf, CHANTOKEN);
    if |buf| >= |junk| + 4 && !IsConfigText(f) {
      var t := buf[|junk|..];
      PartOf(junk, f, buf);
      assert t[..4] == f[..4];
      FoundAfter(junk, f, buf, ADCTOKEN);
      NotThere(buf, |junk|, CHANTOKEN, ADCTOKEN[0]);
      if |t| > PREHDRLEN {
        assert t[4] == f[4] && t[5] == f[5];
      }
    } else if IsConfigText(f) {
      NoAdcInPart(junk, f, buf);
      NoTextYet(junk, f, buf);
    }
  }

  lemma PartOf(junk: seq<byte>, f: seq<byte>, buf: seq<byte>)
    requires buf <= junk + f && |buf| >= |junk|
    ensures buf[|junk|..] <= f && buf[..|junk|] == junk
  {
    assert (junk + f)[..|buf|] == buf;
  }

  lemma NoAdcInPart(junk: seq<byte>, f: seq<byte>, buf: seq<byte>)
    requires IsConfigText(f) && NoTokenBefore(junk, f) && buf <= junk + f
    ensures Leftmost(buf, ADCTOKEN) == -1
  {
    var r := Leftmost(buf, ADCTOKEN);
    NotEarlier(junk, f, buf, ADCTOKEN);
    if r >= |junk| {
      OccursInside(junk, f, buf, ADCTOKEN, r);
    }
  }

  lemma OccursInside(junk: seq<byte>, f: seq<byte>, buf: seq<byte>, needle: seq<byte>, r: nat)
    requires buf <= junk + f && OccursAt(buf, needle, r) && r >= |junk|
    ensures OccursAt(f, needle, r - |junk|)
  {
    assert f[r - |junk|..r - |junk| + |needle|] == (junk + f)[r..r + |needle|] == buf[r..r + |needle|];
  }

  lemma NoTextYet(junk: seq<byte>, f: seq<byte>, buf: seq<byte>)
    requires IsConfigText(f) && NoTokenBefore(junk, f) && buf < junk + f
    ensures FindChanInfo(buf) == -1
  {
    NotEarlier(junk, f, buf, CHANTOKEN);
  }

  // ----- runs -----

  /** Either nothing has been taken yet, or what lay before the first frame has been dropped
      and the frames received whole have been taken. */
  ghost predicate Resynced(o: Outcome, junk: seq<byte>, frames: seq<seq<byte>>, bytes: seq<byte>) {
    if o.pieces == [] then
      o == Outcome([], bytes, false) && Waiting(junk, frames, bytes)
    else
      (|bytes| >= |junk| &&
       var s := SplitFrames(frames, bytes[|junk|..]);
       o == Outcome([Junk(junk)] + PiecesOf(s.done), s.rest, false))
  }

  /** The first frame has not been received whole. */
  ghost predicate Waiting(junk: seq<byte>, frames: seq<seq<byte>>, bytes: seq<byte>) {
    frames != [] && |bytes| < |junk| + |frames[0]|
  }

  ghost predicate Broken(junk: seq<byte>, frames: seq<seq<byte>>) {
    junk != [] && frames != [] && AllWireFrames(frames) && NoTokenBefore(junk, frames[0])
  }

  lemma BytesOfFirst(junk: seq<byte>, frames: seq<seq<byte>>, bytes: seq<byte>)
    requires frames != [] && bytes <= junk + Flatten(frames)
    ensures |bytes| < |junk| + |frames[0]| ==> bytes < junk + frames[0]
    ensures |bytes| >= |junk| ==>
      bytes[..|junk|] == junk && bytes[|junk|..] <= Flatten(frames) && bytes == junk + bytes[|junk|..]
  {
    var all := junk + Flatten(frames);
    assert bytes == all[..|bytes|];
    if |bytes| < |junk| + |frames[0]| {
      assert all[..|bytes|] == (junk + frames[0])[..|bytes|];
    }
    if |bytes| >= |junk| {
      assert all[|junk|..] == Flatten(frames);
      assert bytes[|junk|..] == all[|junk|..][..|bytes| - |junk|];
    }
  }

  lemma FramesOnly(frames: seq<seq<byte>>, t: seq<byte>)
    requires AllWireFrames(frames) && t <= Flatten(frames)
    ensures var s := SplitFrames(frames, t); Rounds(t, false) == Outcome(PiecesOf(s.done), s.rest, false)
  {
    NothingAfter(Flatten(frames));
    RoundsOnFrames(frames, [], t);
    SplitFramesMeaning(frames, [], t);
  }

  /** A pass over the bytes from the start. */
  lemma ResyncPass(junk: seq<byte>, frames: seq<seq<byte>>, bytes: seq<byte>)
    requires Broken(junk, frames) && bytes <= junk + Flatten(frames)
    ensures Resynced(CheckData(bytes, false), junk, frames, bytes)
  {
    var f := frames[0];
    assert f in frames;
    BytesOfFirst(junk, frames, bytes);
    if |bytes| < |junk| + |f| {
      JunkThenPart(junk, f, bytes);
      ShortOfFirst(frames);
    } else {
      var t := bytes[|junk|..];
      NothingAfter(Flatten(frames));
      HeadFrame(frames, [], t);
      NothingAfter(Flatten(frames[1..]));
      JunkThenFrame(junk, f, t[|f|..]);
      FramesOnly(frames[1..], t[|f|..]);
      TakenFirst(junk, f, frames, t);
    }
  }

  lemma ShortOfFirst(frames: seq<seq<byte>>)
    requires frames != []
    ensures |frames[0]| <= |Flatten(frames)|
  {
  }

  lemma TakenFirst(junk: seq<byte>, f: seq<byte>, frames: seq<seq<byte>>, t: seq<byte>)
    requires frames != [] && f == frames[0] && |t| >= |f|
    ensures var s, u := SplitFrames(frames, t), SplitFrames(frames[1..], t[|f|..]);
      s.rest == u.rest && [Junk(junk), PieceOf(f)] + PiecesOf(u.done) == [Junk(junk)] + PiecesOf(s.done)
  {
    var u := SplitFrames(frames[1..], t[|f|..]);
    assert ([f] + u.done)[1..] == u.done;
  }

  /** Once resynchronised, the run goes on as on a stream of frames. */
  lemma AfterResync(junk: seq<byte>, frames: seq<seq<byte>>, bytes: seq<byte>, chunks: seq<seq<byte>>)
    requires Broken(junk, frames) && |bytes| >= |junk| && bytes + Flatten(chunks) <= junk + Flatten(frames)
    ensures var s := SplitFrames(frames, bytes[|junk|..]);
      var u := SplitFrames(frames, (bytes + Flatten(chunks))[|junk|..]);
      Prepend([Junk(junk)] + PiecesOf(s.done), Feed(s.rest, chunks))
      == Outcome([Junk(junk)] + PiecesOf(u.done), u.rest, false)
  {
    var t, later := bytes[|junk|..], Flatten(chunks);
    BytesOfFirst(junk, frames, bytes + later);
    assert (bytes + later)[|junk|..] == t + later;
    NothingAfter(Flatten(frames));
    AfterPass(frames, [], t, later);
    var s := SplitFrames(frames, t);
    SplitFramesMeaning(frames, [], t);
    NothingAfter(Flatten(s.todo));
    FeedOnFrames(s.todo, [], s.rest, chunks);
    SplitFramesMeaning(s.todo, [], s.rest + later);
    SplitInTwo(frames, t, later);
    var u := SplitFrames(s.todo, s.rest + later);
    PiecesOfAppend(s.done, u.done);
    ConcatAssociative([Junk(junk)], PiecesOf(s.done), PiecesOf(u.done));
  }

  lemma {:induction false} ResyncFeed(junk: seq<byte>, frames: seq<seq<byte>>, ring: seq<byte>, chunks: seq<seq<byte>>)
    requires Broken(junk, frames) && ring + Flatten(chunks) <= junk + Flatten(frames)
    requires Waiting(junk, frames, ring)
    ensures Resynced(Feed(ring, chunks), junk, frames, ring + Flatten(chunks))
    decreases |chunks|
  {
    if chunks == [] {
      NothingAfter(ring);
      ShortOfFirst(frames);
    } else {
      var now, later := ring + chunks[0], Flatten(chunks[1..]);
      ConcatAssociative(ring, chunks[0], later);
      assert now <= now + later;
      ResyncPass(junk, frames, now);
      var p := CheckData(now, false);
      if p.pieces == [] {
        ResyncFeed(junk, frames, now, chunks[1..]);
        NothingFirst(Feed(now, chunks[1..]).pieces);
      } else {
        AfterResync(junk, frames, now, chunks[1..]);
      }
    }
  }

  lemma NothingFirst<T>(x: seq<T>)
    ensures [] + x == x
  {
  }

  /** After bytes in which no token begins, a stream of frames is decoded in full, however the
      whole is cut into chunks: the bytes are dropped and every frame is taken. */
  lemma Resynchronises(junk: seq<byte>, frames: seq<seq<byte>>, chunks: seq<seq<byte>>)
    requires Broken(junk, frames) && Flatten(chunks) == junk + Flatten(frames)
    ensures Feed([], chunks) == Outcome([Junk(junk)] + PiecesOf(frames), [], false)
  {
    assert frames[0] in frames;
    NothingFirst(Flatten(chunks));
    ResyncFeed(junk, frames, [], chunks);
    AfterJunk(junk, Flatten(frames));
    ShortOfFirst(frames);
    AllSplit(frames);
  }

  lemma {:induction false} AllSplit(frames: seq<seq<byte>>)
    ensures SplitFrames(frames, Flatten(frames)) == Split(frames, [], [])
  {
    if frames != [] {
      AllSplit(frames[1..]);
      assert Flatten(frames)[|frames[0]|..] == Flatten(frames[1..]);
      assert [frames[0]] + frames[1..] == frames;
    }
  }

  // ----- refused texts and inhibited passes -----

  /** A text with numbers that are not accepted is taken off by itself, and the pass ends. */
  lemma RefusedText(c: ChannelInfo, rest: seq<byte>)
    requires !Accepted(c) && |Print(c)| == CHANINFOLEN && CHANTOKEN <= Print(c)
    ensures CheckData(Print(c) + rest, false) == Outcome([BadConfig(Print(c))], rest, false)
  {
    var text, buf := Print(c), Print(c) + rest;
    PrintScan(c, []);
    assert Print(c) + [] == Print(c);
    assert CHANTOKEN <= buf && buf[0..] == buf && buf[..CHANINFOLEN] == text && buf[CHANINFOLEN..] == rest;
    assert buf[0..CHANINFOLEN] == text;
    FoundAtStart(buf, CHANTOKEN);
    NotAtStart(buf);
  }

  /** An inhibited pass still takes channel texts. */
  lemma InhibitedText(f: seq<byte>, rest: seq<byte>)
    requires IsConfigText(f)
    ensures OneRound(f + rest, true) == Round([Config(f)], rest, Again)
  {
    var buf := f + rest;
    assert CHANTOKEN <= buf && buf[0..] == buf && buf[..CHANINFOLEN] == f && buf[CHANINFOLEN..] == rest;
    assert buf[0..CHANINFOLEN] == f;
    FoundAtStart(buf, CHANTOKEN);
  }

  /** It takes all whole texts at the start, keeps at most a token's length of what follows,
      and drops it when there is more. */
  lemma InhibitedPass(texts: seq<seq<byte>>, rest: seq<byte>)
    requires forall f :: f in texts ==> IsConfigText(f)
    requires FindChanInfo(rest) == -1
    ensures LastInfo(CheckData(Flatten(texts) + rest, true).pieces, NOINFO) ==
      if texts == [] then NOINFO else Scan(texts[|texts| - 1]).info
    ensures CheckData(Flatten(texts) + rest, true).rest == if |rest| > 5 then [] else rest
  {
    InhibitedRoundsOn(texts, rest);
    LastOfTexts(texts);
    CleaningKeepsInfo(Configs(texts), rest);
  }

  lemma CleaningKeepsInfo(ps: seq<Piece>, rest: seq<byte>)
    ensures var c := Cleaned(Outcome(ps, rest, false), true);
      LastInfo(c.pieces, NOINFO) == LastInfo(ps, NOINFO) && c.rest == if |rest| > 5 then [] else rest
  {
    assert (ps + [Junk(rest)])[..|ps|] == ps;
  }

  function Configs(texts: seq<seq<byte>>): seq<Piece> {
    if texts == [] then [] else [Config(texts[0])] + Configs(texts[1..])
  }

  lemma {:induction false} InhibitedRoundsOn(texts: seq<seq<byte>>, rest: seq<byte>)
    requires forall f :: f in texts ==> IsConfigText(f)
    requires FindChanInfo(rest) == -1
    ensures Rounds(Flatten(texts) + rest, true) == Outcome(Configs(texts), rest, false)
  {
    if texts == [] {
      NothingBefore(rest);
    } else {
      assert texts[0] in texts;
      ConcatAssociative(texts[0], Flatten(texts[1..]), rest);
      InhibitedText(texts[0], Flatten(texts[1..]) + rest);
      InhibitedRoundsOn(texts[1..], rest);
    }
  }

  lemma LastOfTexts(texts: seq<seq<byte>>)
    ensures LastInfo(Configs(texts), NOINFO) == if texts == [] then NOINFO else Scan(texts[|texts| - 1]).info
  {
    ConfigsAt(texts);
  }

  lemma {:induction false} ConfigsAt(texts: seq<seq<byte>>)
    ensures |Configs(texts)| == |texts|
    ensures forall i :: 0 <= i < |texts| ==> Configs(texts)[i] == Config(texts[i])
  {
    if texts != [] {
      ConfigsAt(texts[1..]);
    }
  }
}
