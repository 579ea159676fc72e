// bytes_in_bytes of src/util.c.
module ByteSearch {
  import opened Bytes

  predicate OccursAt(hay: seq<byte>, needle: seq<byte>, i: int) {
    0 <= i <= |hay| - |needle| && hay[i..i + |needle|] == needle
  }

  /** r is the position of the first occurrence, or -1 when there is none. */
  ghost predicate IsLeftmost(hay: seq<byte>, needle: seq<byte>, r: int) {
    if r == -1 then forall i :: !OccursAt(hay, needle, i)
    else OccursAt(hay, needle, r) && forall i :: i < r ==> !OccursAt(hay, needle, i)
  }

  function LeftmostFrom(hay: seq<byte>, needle: seq<byte>, from: nat): (r: int)
    requires from <= |hay| + 1
    ensures r == -1 ==> forall i :: from <= i ==> !OccursAt(hay, needle, i)
    ensures r != -1 ==> from <= r && OccursAt(hay, needle, r)
    ensures r != -1 ==> forall i :: from <= i < r ==> !OccursAt(hay, needle, i)
    decreases |hay| + 1 - from
  {
    if from + |needle| > |hay| then -1
    else if OccursAt(hay, needle, from) then from
    else LeftmostFrom(hay, needle, from + 1)
  }

  function Leftmost(hay: seq<byte>, needle: seq<byte>): (r: int)
    ensures IsLeftmost(hay, needle, r)
  {
    LeftmostFrom(hay, needle, 0)
  }

  lemma LeftmostUnique(hay: seq<byte>, needle: seq<byte>, r: int)
    requires IsLeftmost(hay, needle, r)
    ensures r == Leftmost(hay, needle)
  {
    var l := Leftmost(hay, needle);
    if r != -1 && l != -1 {
      assert !(r < l) && !(l < r);
    }
  }

  /** What the search returns on every input, also outside its callers' guard. */
  function SearchResult(hay: seq<byte>, needle: seq<byte>): int {
    if needle == [] then -1
    else if |needle| <= |hay| then Leftmost(hay, needle)
    else if hay != [] && hay <= needle then 0
    else -1
  }

  /** The search finds the leftmost occurrence exactly when the needle is not empty and
      the haystack is not a shorter, non-empty prefix of it. */
  lemma SearchCorrectIff(hay: seq<byte>, needle: seq<byte>)
    ensures SearchResult(hay, needle) == Leftmost(hay, needle)
       <==> needle != [] && !(0 < |hay| < |needle| && hay <= needle)
  {
    if needle == [] {
      assert OccursAt(hay, needle, 0);
    }
  }

  /** What the search knows at haystack position h with k needle bytes matched: the
      candidate h - k is still possible and every earlier one is refuted. */
  ghost predicate Searching(hay: seq<byte>, needle: seq<byte>, h: int, k: int) {
    && 0 <= k <= h <= |hay| && k <= |needle|
    && hay[h - k..h] == needle[..k]
    && (|needle| <= |hay| ==> |needle| <= |hay| - (h - k))
    && (|hay| < |needle| ==> h == k)
    && forall i :: i < h - k ==> !OccursAt(hay, needle, i)
  }

  /** One comparison, by the widest word that fits in both strings. */
  method CompareWords(hay: seq<byte>, h: nat, needle: seq<byte>, k: nat, lsize: nat, ssize: nat)
    returns (equal: bool, increment: nat)
    requires h < |hay| && k < |needle| && 0 < lsize && 0 < ssize
    ensures 0 < increment && h + increment <= |hay| && k + increment <= |needle|
    ensures equal <==> hay[h..h + increment] == needle[k..k + increment]
  {
    increment := 1;
    if h + lsize <= |hay| && k + lsize <= |needle| {
      increment := lsize;
    } else if h + ssize <= |hay| && k + ssize <= |needle| {
      increment := ssize;
    }
    var val1 := WordLE(hay[h..h + increment]);
    var val2 := WordLE(needle[k..k + increment]);
    WordLEInjective(hay[h..h + increment], needle[k..k + increment]);
    equal := val1 == val2;
  }

  /** bytes_in_bytes, for any two word sizes. A NULL result is -1. */
  method BytesInBytes(hay: seq<byte>, needle: seq<byte>, lsize: nat, ssize: nat) returns (pos: int)
    requires 0 < lsize && 0 < ssize
    ensures pos == SearchResult(hay, needle)
  {
    var h, k, inmatch, saved := 0, 0, false, 0;
    while h < |hay| && k < |needle|
      invariant if inmatch then 0 < k && saved == h - k else k == 0
      invariant Searching(hay, needle, h, k)
      decreases |hay| - (h - k), |needle| - k
    {
      var equal, increment := CompareWords(hay, h, needle, k, lsize, ssize);
      if equal {
        Matched(hay, needle, h, k, increment);
        if !inmatch {
          inmatch, saved := true, h;
        }
        h, k := h + increment, k + increment;
      } else {
        Mismatched(hay, needle, h, k, increment);
        if inmatch {
          inmatch, h, k := false, saved + 1, 0;
        } else {
          h := h + 1;
        }
        if |hay| - h < |needle| {
          return -1;
        }
      }
    }
    Ended(hay, needle, h, k);
    if inmatch {
      return saved;
    } else {
      return -1;
    }
  }

  lemma Matched(hay: seq<byte>, needle: seq<byte>, h: nat, k: nat, w: nat)
    requires Searching(hay, needle, h, k)
    requires h + w <= |hay| && k + w <= |needle| && hay[h..h + w] == needle[k..k + w]
    ensures Searching(hay, needle, h + w, k + w)
  {
    assert hay[h - k..h + w] == hay[h - k..h] + hay[h..h + w];
    assert needle[..k + w] == needle[..k] + needle[k..k + w];
  }

  lemma Mismatched(hay: seq<byte>, needle: seq<byte>, h: nat, k: nat, w: nat)
    requires Searching(hay, needle, h, k)
    requires h + w <= |hay| && k + w <= |needle| && hay[h..h + w] != needle[k..k + w]
    ensures |needle| <= |hay| - (h - k + 1) ==> Searching(hay, needle, h - k + 1, 0)
    ensures |needle| > |hay| - (h - k + 1) ==> SearchResult(hay, needle) == -1
  {
    var at := h - k;
    if OccursAt(hay, needle, at) {
      SliceOfSlice(hay, at, at + |needle|, k, k + w);
    }
    if |needle| > |hay| - (at + 1) && |needle| <= |hay| {
      assert IsLeftmost(hay, needle, -1);
      LeftmostUnique(hay, needle, -1);
    }
  }

  lemma Ended(hay: seq<byte>, needle: seq<byte>, h: nat, k: nat)
    requires Searching(hay, needle, h, k)
    requires h == |hay| || k == |needle|
    ensures SearchResult(hay, needle) == if k > 0 then h - k else -1
  {
    if k > 0 {
      if |needle| <= |hay| {
        assert IsLeftmost(hay, needle, h - k);
        LeftmostUnique(hay, needle, h - k);
      } else {
        assert hay == hay[..h];
      }
    }
  }

  lemma SliceOfSlice(s: seq<byte>, a: nat, b: nat, c: nat, d: nat)
    requires a <= b <= |s| && c <= d <= b - a
    ensures s[a..b][c..d] == s[a + c..a + d]
  {
    var l, r := s[a..b][c..d], s[a + c..a + d];
    assert forall i :: 0 <= i < |l| ==> l[i] == r[i];
  }
}
