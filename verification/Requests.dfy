// Counting "SEND AD" requests in client bytes: what check_server_incoming of src/server.c may forget.
module Requests {
  import opened Bytes
  import opened ByteSearch

  /** How often the request occurs, at any position. */
  function Count(s: seq<byte>): nat
    decreases |s|
  {
    if |s| < |CHANREQUEST| then 0
    else (if OccursAt(s, CHANREQUEST, 0) then 1 else 0) + Count(s[1..])
  }

  /** check_server_incoming on the ring's bytes: what stays, and whether a request was found. */
  function CheckRequest(rcv: seq<byte>): (seq<byte>, bool) {
    var pos := Leftmost(rcv, CHANREQUEST);
    if pos >= 0 then (rcv[pos + |CHANREQUEST|..], true)
    else if |rcv| > |CHANREQUEST| then (rcv[|rcv| - |CHANREQUEST|..], false)
    else (rcv, false)
  }

  lemma OccursInTail(s: seq<byte>, k: nat, i: nat)
    requires k <= |s|
    ensures OccursAt(s[k..], CHANREQUEST, i) <==> OccursAt(s, CHANREQUEST, k + i)
  {
    if i <= |s| - k - |CHANREQUEST| {
      assert s[k..][i..i + |CHANREQUEST|] == s[k + i..k + i + |CHANREQUEST|];
    }
  }

  lemma {:induction false} CountSkips(s: seq<byte>, k: nat)
    requires k <= |s| && forall i :: 0 <= i < k ==> !OccursAt(s, CHANREQUEST, i)
    ensures Count(s) == Count(s[k..])
  {
    if k == 0 {
      assert s[0..] == s;
    } else {
      forall i | 0 <= i < k - 1 ensures !OccursAt(s[1..], CHANREQUEST, i) {
        OccursInTail(s, 1, i);
      }
      CountSkips(s[1..], k - 1);
      assert s[1..][k - 1..] == s[k..];
      assert !OccursAt(s, CHANREQUEST, 0);
      if |s| < |CHANREQUEST| {
        assert |s[k..]| < |CHANREQUEST|;
      }
    }
  }

  /** Two requests never overlap: no letter after the first is an S. */
  lemma NoOverlap(s: seq<byte>, p: nat, j: nat)
    requires OccursAt(s, CHANREQUEST, p) && 0 < j < |CHANREQUEST|
    ensures !OccursAt(s, CHANREQUEST, p + j)
  {
    assert s[p..p + |CHANREQUEST|][j] == CHANREQUEST[j];
    if p + j + |CHANREQUEST| <= |s| {
      assert s[p + j..p + j + |CHANREQUEST|][0] == s[p + j] != CHANREQUEST[0];
    }
  }

  lemma CountFirst(s: seq<byte>, p: nat)
    requires OccursAt(s, CHANREQUEST, p) && forall i :: 0 <= i < p ==> !OccursAt(s, CHANREQUEST, i)
    ensures Count(s) == 1 + Count(s[p + |CHANREQUEST|..])
  {
    CountSkips(s, p);
    var t := s[p..];
    OccursInTail(s, p, 0);
    var u := t[1..];
    forall j | 0 <= j < |CHANREQUEST| - 1 ensures !OccursAt(u, CHANREQUEST, j) {
      NoOverlap(t, 0, j + 1);
      OccursInTail(t, 1, j);
    }
    CountSkips(u, |CHANREQUEST| - 1);
    assert u[|CHANREQUEST| - 1..] == s[p + |CHANREQUEST|..];
  }

  lemma OccursBefore(s: seq<byte>, x: seq<byte>, i: nat)
    requires i + |CHANREQUEST| <= |s|
    ensures OccursAt(s + x, CHANREQUEST, i) <==> OccursAt(s, CHANREQUEST, i)
  {
    assert (s + x)[i..i + |CHANREQUEST|] == s[i..i + |CHANREQUEST|];
  }

  /** A request lies somewhere in the bytes. */
  ghost predicate Holds(s: seq<byte>) {
    exists i :: OccursAt(s, CHANREQUEST, i)
  }

  /** A check reports one exactly when there is one. */
  lemma CheckReportsIff(rcv: seq<byte>)
    ensures CheckRequest(rcv).1 <==> Holds(rcv)
  {
    if Leftmost(rcv, CHANREQUEST) >= 0 {
      assert OccursAt(rcv, CHANREQUEST, Leftmost(rcv, CHANREQUEST));
    }
  }

  /** A check takes off exactly one request when it reports one, and otherwise only bytes
      that no request, however it continues, can begin in. */
  lemma CheckKeepsCount(rcv: seq<byte>, x: seq<byte>)
    ensures var (rest, found) := CheckRequest(rcv);
      Count(rcv + x) == (if found then 1 else 0) + Count(rest + x)
  {
    var pos, n := Leftmost(rcv, CHANREQUEST), |CHANREQUEST|;
    if pos >= 0 {
      forall i | 0 <= i < pos ensures !OccursAt(rcv + x, CHANREQUEST, i) { OccursBefore(rcv, x, i); }
      OccursBefore(rcv, x, pos);
      CountFirst(rcv + x, pos);
      assert (rcv + x)[pos + n..] == rcv[pos + n..] + x;
    } else if |rcv| > n {
      var m := |rcv| - n;
      forall i | 0 <= i < m ensures !OccursAt(rcv + x, CHANREQUEST, i) { OccursBefore(rcv, x, i); }
      CountSkips(rcv + x, m);
      assert (rcv + x)[m..] == rcv[m..] + x;
    }
  }

  /** The requests reported and those the ring can still yield are those received. */
  ghost predicate Accounted(received: seq<byte>, reported: nat, rcv: seq<byte>) {
    forall x :: Count(received + x) == reported + Count(rcv + x)
  }

  lemma AccountedStep(received: seq<byte>, reported: nat, rcv: seq<byte>, b: seq<byte>)
    requires Accounted(received, reported, rcv)
    ensures var (rest, found) := CheckRequest(rcv + b);
      Accounted(received + b, reported + (if found then 1 else 0), rest)
  {
    var (rest, found) := CheckRequest(rcv + b);
    forall x ensures Count(received + b + x) == reported + (if found then 1 else 0) + Count(rest + x) {
      assert received + b + x == received + (b + x);
      assert rcv + b + x == rcv + (b + x);
      CheckKeepsCount(rcv + b, x);
    }
  }

  /** For any chunking: each chunk is put on the ring and checked once. */
  function Listen(rcv: seq<byte>, chunks: seq<seq<byte>>): (seq<byte>, nat)
    decreases |chunks|
  {
    if chunks == [] then (rcv, 0)
    else
      var (rest, found) := CheckRequest(rcv + chunks[0]);
      var (last, n) := Listen(rest, chunks[1..]);
      (last, n + if found then 1 else 0)
  }

  lemma {:induction false} ListenAccounts(received: seq<byte>, reported: nat, rcv: seq<byte>, chunks: seq<seq<byte>>)
    requires Accounted(received, reported, rcv)
    ensures var (last, n) := Listen(rcv, chunks);
      Accounted(received + Flatten(chunks), reported + n, last)
    decreases |chunks|
  {
    if chunks == [] {
      assert received + Flatten(chunks) == received;
    } else {
      AccountedStep(received, reported, rcv, chunks[0]);
      var (rest, found) := CheckRequest(rcv + chunks[0]);
      ListenAccounts(received + chunks[0], reported + (if found then 1 else 0), rest, chunks[1..]);
      assert received + chunks[0] + Flatten(chunks[1..]) == received + Flatten(chunks);
    }
  }

  /** Requests reported plus requests still on the ring are the requests received. */
  lemma NoRequestLost(chunks: seq<seq<byte>>)
    ensures var (last, n) := Listen([], chunks); Count(Flatten(chunks)) == n + Count(last)
  {
    ListenAccounts([], 0, [], chunks);
    var (last, n) := Listen([], chunks);
    assert [] + Flatten(chunks) + [] == Flatten(chunks) && last + [] == last;
  }

  /** After a check there is always room for a whole request, so the ring never wedges. */
  lemma RoomForRequest(rcv: seq<byte>)
    requires |rcv| <= SERVERRCVBFRSIZE
    ensures |CheckRequest(rcv).0| + |CHANREQUEST| <= SERVERRCVBFRSIZE
  {
  }
}
