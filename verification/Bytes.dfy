// Bytes, byte strings and the wire constants of src/sdrproxy.h.
module Bytes {

  newtype byte = x: int | 0 <= x < 256

  // "\xAA\x55\x88\x44", the first four bytes of every A/D frame.
  const ADCTOKEN: seq<byte> := [0xAA, 0x55, 0x88, 0x44]
  // "SPS: ", the first five bytes of every channel information text.
  const CHANTOKEN: seq<byte> := [83, 80, 83, 58, 32]
  // "SEND AD", the request a client sends.
  const CHANREQUEST: seq<byte> := [83, 69, 78, 68, 32, 65, 68]

  const CHANINFOLEN: nat := 25
  const PREHDRLEN: nat := 8
  const DATAHDRLEN: nat := 22
  const CRCLEN: nat := 1
  const BFRSIZE: nat := 5000
  const SERVERRCVBFRSIZE: nat := 300
  const MAXDATAPERSEC: nat := 1600
  const ADCDATASIZE: nat := 4
  const ADC_AD_DATA: byte := 3

  ghost predicate Spells(s: seq<byte>, text: string) {
    |s| == |text| && forall i :: 0 <= i < |s| ==> s[i] as int == text[i] as int
  }

  lemma TokensSpelled()
    ensures Spells(CHANTOKEN, "SPS: ") && Spells(CHANREQUEST, "SEND AD")
  {
  }

  /** The concatenation of a list of byte strings. */
  function Flatten(parts: seq<seq<byte>>): seq<byte> {
    if parts == [] then [] else parts[0] + Flatten(parts[1..])
  }

  lemma {:induction false} FlattenAppend(a: seq<seq<byte>>, b: seq<seq<byte>>)
    ensures Flatten(a + b) == Flatten(a) + Flatten(b)
  {
    if a == [] {
      assert a + b == b;
    } else {
      FlattenAppend(a[1..], b);
      FlattenCons(a[0], a[1..] + b);
      assert [a[0]] + (a[1..] + b) == a + b;
      ConcatAssociative(a[0], Flatten(a[1..]), Flatten(b));
    }
  }

  lemma FlattenCons(x: seq<byte>, a: seq<seq<byte>>)
    ensures Flatten([x] + a) == x + Flatten(a)
  {
    assert ([x] + a)[1..] == a;
  }

  lemma ConcatAssociative<T>(a: seq<T>, b: seq<T>, c: seq<T>)
    ensures a + (b + c) == a + b + c
  {
  }

  lemma FlattenSnoc(a: seq<seq<byte>>, x: seq<byte>)
    ensures Flatten(a + [x]) == Flatten(a) + x
  {
    FlattenAppend(a, [x]);
    assert Flatten([x]) == x + Flatten([x][1..]);
  }

  /** The value of an unsigned little-endian word, as a pointer cast reads it. */
  function WordLE(s: seq<byte>): nat {
    if s == [] then 0 else s[0] as nat + 256 * WordLE(s[1..])
  }

  /** Comparing two words of one width is comparing their bytes. */
  lemma {:induction false} WordLEInjective(a: seq<byte>, b: seq<byte>)
    requires |a| == |b|
    ensures WordLE(a) == WordLE(b) <==> a == b
  {
    if a != [] {
      WordLEInjective(a[1..], b[1..]);
      assert a == [a[0]] + a[1..] && b == [b[0]] + b[1..];
    }
  }

  function Pow2(n: nat): nat {
    if n == 0 then 1 else 2 * Pow2(n - 1)
  }

  /** Bitwise exclusive or of two w-bit numbers. */
  function XorBits(a: nat, b: nat, w: nat): (r: nat)
    requires a < Pow2(w) && b < Pow2(w)
    ensures r < Pow2(w)
    ensures r == 0 <==> a == b
  {
    if w == 0 then 0
    else (if a % 2 == b % 2 then 0 else 1) + 2 * XorBits(a / 2, b / 2, w - 1)
  }

  lemma Pow2Eight()
    ensures Pow2(8) == 256
  {
    assert Pow2(4) == 16;
  }

  function Xor(a: byte, b: byte): (r: byte)
    ensures r == 0 <==> a == b
  {
    Pow2Eight();
    XorBits(a as nat, b as nat, 8) as byte
  }

  // ----- what the exclusive or does to each bit -----

  function Bit(n: nat, k: nat): nat {
    if k == 0 then n % 2 else Bit(n / 2, k - 1)
  }

  lemma {:induction false} XorBitsAt(a: nat, b: nat, w: nat, k: nat)
    requires a < Pow2(w) && b < Pow2(w) && k < w
    ensures Bit(XorBits(a, b, w), k) == if Bit(a, k) == Bit(b, k) then 0 else 1
  {
    if k > 0 {
      XorBitsAt(a / 2, b / 2, w - 1, k - 1);
    }
  }

  /** A bit of the result is set exactly when it differs in the two bytes. */
  lemma XorAt(a: byte, b: byte, k: nat)
    requires k < 8
    ensures Bit(Xor(a, b) as nat, k) == if Bit(a as nat, k) == Bit(b as nat, k) then 0 else 1
  {
    Pow2Eight();
    XorBitsAt(a as nat, b as nat, 8, k);
  }

  /** The lowest bit that is set. */
  function FirstOne(n: nat, w: nat): (k: nat)
    requires 0 < n < Pow2(w)
    ensures k < w && Bit(n, k) == 1
  {
    if n % 2 == 1 then 0 else 1 + FirstOne(n / 2, w - 1)
  }

  lemma {:induction false} ZeroBit(k: nat)
    ensures Bit(0, k) == 0
  {
    if k > 0 {
      ZeroBit(k - 1);
    }
  }

  /** How many of the bytes have bit k set. */
  function OnesAt(s: seq<byte>, k: nat): nat {
    if s == [] then 0 else OnesAt(s[..|s| - 1], k) + (if Bit(s[|s| - 1] as nat, k) == 1 then 1 else 0)
  }

  lemma {:induction false} BitIsBinary(n: nat, k: nat)
    ensures Bit(n, k) < 2
  {
    if k > 0 {
      BitIsBinary(n / 2, k - 1);
    }
  }

  /** A bit of the checksum is the parity of how many bytes have it set. */
  lemma {:induction false} XorAllAt(s: seq<byte>, k: nat)
    requires k < 8
    ensures Bit(XorAll(s) as nat, k) == OnesAt(s, k) % 2
  {
    if s == [] {
      ZeroBit(k);
    } else {
      var r, b := s[..|s| - 1], s[|s| - 1];
      XorAllAt(r, k);
      XorAt(XorAll(r), b, k);
      BitIsBinary(b as nat, k);
      OneMore(OnesAt(r, k), Bit(b as nat, k));
    }
  }

  lemma OneMore(n: nat, bit: nat)
    requires bit < 2
    ensures (n + bit) % 2 == if n % 2 == bit then 0 else 1
  {
  }

  /** Every bit is set in an even number of the bytes. */
  ghost predicate EvenBits(s: seq<byte>) {
    forall k :: 0 <= k < 8 ==> OnesAt(s, k) % 2 == 0
  }

  /** Each bit of n is the parity of how many bytes have it set. */
  ghost predicate Parities(n: nat, s: seq<byte>) {
    forall k :: 0 <= k < 8 ==> Bit(n, k) == OnesAt(s, k) % 2
  }

  lemma XorAllParities(s: seq<byte>)
    ensures Parities(XorAll(s) as nat, s)
  {
    forall k | 0 <= k < 8 ensures Bit(XorAll(s) as nat, k) == OnesAt(s, k) % 2 {
      XorAllAt(s, k);
    }
  }

  lemma XorAllZeroIff(s: seq<byte>)
    ensures XorAll(s) == 0 <==> EvenBits(s)
  {
    var n := XorAll(s) as nat;
    XorAllParities(s);
    if n == 0 {
      forall k | 0 <= k < 8 ensures OnesAt(s, k) % 2 == 0 {
        ZeroBit(k);
        assert Bit(n, k) == 0;
      }
    } else {
      Pow2Eight();
      assert Bit(n, FirstOne(n, 8)) == 1;
    }
  }

  // ----- numbers on the wire -----

  /** A number as w bytes, the low one first. */
  function LowFirst(n: nat, w: nat): (s: seq<byte>)
    ensures |s| == w
  {
    if w == 0 then [] else [(n % 256) as byte] + LowFirst(n / 256, w - 1)
  }

  function Pow256(w: nat): nat {
    if w == 0 then 1 else 256 * Pow256(w - 1)
  }

  lemma {:induction false} ReadsBack(n: nat, w: nat)
    requires n < Pow256(w)
    ensures WordLE(LowFirst(n, w)) == n
  {
    if w > 0 {
      ReadsBack(n / 256, w - 1);
      assert LowFirst(n, w)[1..] == LowFirst(n / 256, w - 1);
    }
  }

  /** do_crc: the exclusive or of all the bytes. */
  function XorAll(s: seq<byte>): byte {
    if s == [] then 0 else Xor(XorAll(s[..|s| - 1]), s[|s| - 1])
  }

  method DoCrc(bfr: array<byte>, from: nat, cnt: nat) returns (crc: byte)
    requires from + cnt <= bfr.Length
    ensures crc == XorAll(bfr[from..from + cnt])
    ensures Parities(crc as nat, bfr[from..from + cnt])
  {
    crc := 0;
    for i := 0 to cnt
      invariant crc == XorAll(bfr[from..from + i])
    {
      assert bfr[from..from + i + 1][..i] == bfr[from..from + i];
      crc := Xor(crc, bfr[from + i]);
    }
    XorAllParities(bfr[from..from + cnt]);
  }
}
