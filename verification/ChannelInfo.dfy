// The channel information text: sprintf in src/server.c, sscanf and the range check in src/client.c.
module ChannelInfo {
  import opened Bytes
  import opened ByteSearch

  datatype ChannelInfo = ChannelInfo(sps: int, numChannels: int, adcType: int)

  const NOINFO := ChannelInfo(0, 0, 0)

  // ----- printing -----

  const SPS: seq<byte> := [83, 80, 83, 58]                  // "SPS:"
  const CHANS: seq<byte> := [67, 104, 97, 110, 115, 58]     // "Chans:"
  const TYPE: seq<byte> := [84, 121, 112, 101, 58]          // "Type:"
  const BLANK: byte := 32
  const MINUS: byte := 45
  const PLUS: byte := 43

  function Digits(n: nat): (s: seq<byte>)
    ensures |s| >= 1 && IsDigit(s[0])
    ensures |s| == 1 <==> n < 10
    ensures n < 1000 ==> |s| <= 3
    ensures Ascii(s)
  {
    if n < 10 then [(48 + n) as byte] else Digits(n / 10) + [(48 + n % 10) as byte]
  }

  function Decimal(i: int): (s: seq<byte>)
    ensures |s| >= 1 && Ascii(s)
  {
    if i < 0 then [MINUS] + Digits(-i) else Digits(i)
  }

  /** %<width>d: the number, with blanks before it up to the width. */
  function Padded(i: int, width: nat): (s: seq<byte>)
    ensures Ascii(s) && |s| >= width
    ensures 0 <= i < 1000 && width == 3 ==> |s| == 3
    ensures 0 <= i < 10 && width == 1 ==> |s| == 1
    decreases width
  {
    Pad(Decimal(i), width)
  }

  function Pad(s: seq<byte>, width: nat): (r: seq<byte>)
    ensures |r| == if |s| < width then width else |s|
    ensures Ascii(s) ==> Ascii(r)
    decreases width - |s|
  {
    if |s| >= width then s else Pad([BLANK] + s, width)
  }

  /** sprintf "SPS: %3d Chans: %1d Type: %1d". */
  function Print(c: ChannelInfo): (s: seq<byte>)
    ensures |s| >= CHANINFOLEN
  {
    SPS + ([BLANK] + (Padded(c.sps, 3) + ([BLANK] + (CHANS + ([BLANK] + (Padded(c.numChannels, 1)
    + ([BLANK] + (TYPE + ([BLANK] + Padded(c.adcType, 1))))))))))
  }

  ghost predicate Ascii(s: seq<byte>) {
    forall i :: 0 <= i < |s| ==> s[i] < 128
  }

  // ----- scanning -----

  predicate IsSpace(b: byte) { b == 32 || 9 <= b <= 13 }

  predicate IsDigit(b: byte) { 48 <= b <= 57 }

  function SkipSpace(s: seq<byte>): (r: seq<byte>)
    ensures |r| <= |s|
  {
    if s != [] && IsSpace(s[0]) then SkipSpace(s[1..]) else s
  }

  function EatDigits(s: seq<byte>, acc: nat): (nat, seq<byte>) {
    if s != [] && IsDigit(s[0]) then EatDigits(s[1..], 10 * acc + (s[0] - 48) as nat) else (acc, s)
  }

  datatype Scanned = NoMatch | Number(value: int, rest: seq<byte>)

  /** An optional sign and at least one digit. */
  function ScanSigned(t: seq<byte>): Scanned {
    if t == [] then NoMatch
    else if t[0] == MINUS then Negate(ScanDigits(t[1..]))
    else if t[0] == PLUS then ScanDigits(t[1..])
    else ScanDigits(t)
  }

  function ScanDigits(u: seq<byte>): Scanned {
    if u == [] || !IsDigit(u[0]) then NoMatch
    else var (n, rest) := EatDigits(u, 0); Number(n, rest)
  }

  function Negate(r: Scanned): Scanned {
    if r.NoMatch? then r else r.(value := -r.value)
  }

  /** %d: white space before the number is skipped. */
  function ScanInt(s: seq<byte>): Scanned {
    ScanSigned(SkipSpace(s))
  }

  /** White space, a word and then %d. */
  function ScanField(s: seq<byte>, word: seq<byte>): Scanned {
    var t := SkipSpace(s);
    if word <= t then ScanInt(t[|word|..]) else NoMatch
  }

  datatype ScanResult = ScanResult(count: nat, info: ChannelInfo)

  /** sscanf "SPS: %d Chans: %d Type: %d ": how many numbers were read, and the triple
      when all three were. The first literal admits no white space before it. */
  function Scan(s: seq<byte>): ScanResult {
    var f1 := if SPS <= s then ScanInt(s[|SPS|..]) else NoMatch;
    if f1.NoMatch? then ScanResult(0, NOINFO)
    else
      var f2 := ScanField(f1.rest, CHANS);
      if f2.NoMatch? then ScanResult(1, NOINFO)
      else
        var f3 := ScanField(f2.rest, TYPE);
        if f3.NoMatch? then ScanResult(2, NOINFO)
        else ScanResult(3, ChannelInfo(f1.value, f2.value, f3.value))
  }

  // ----- round trip -----

  lemma {:induction false} EatDigitsPrinted(n: nat, rest: seq<byte>)
    ensures EatDigits(Digits(n) + rest, 0) == EatDigits(rest, n)
  {
    if n < 10 {
      assert ([(48 + n) as byte] + rest)[1..] == rest;
    } else {
      var d := (48 + n % 10) as byte;
      EatDigitsPrinted(n / 10, [d] + rest);
      assert Digits(n) + rest == Digits(n / 10) + ([d] + rest);
      assert ([d] + rest)[1..] == rest;
    }
  }

  lemma SkipNothing(s: seq<byte>)
    requires s != [] && !IsSpace(s[0])
    ensures SkipSpace(s) == s
  {
  }

  lemma SkipBlank(s: seq<byte>)
    ensures SkipSpace([BLANK] + s) == SkipSpace(s)
  {
    assert ([BLANK] + s)[1..] == s;
  }

  lemma {:induction false} SkipPadding(s: seq<byte>, width: nat, rest: seq<byte>)
    ensures SkipSpace(Pad(s, width) + rest) == SkipSpace(s + rest)
    decreases width - |s|
  {
    if |s| < width {
      SkipPadding([BLANK] + s, width, rest);
      assert [BLANK] + s + rest == [BLANK] + (s + rest);
      SkipBlank(s + rest);
    }
  }

  ghost predicate NoDigitFirst(s: seq<byte>) { s != [] ==> !IsDigit(s[0]) }

  lemma ScanPrintedDigits(n: nat, rest: seq<byte>)
    requires NoDigitFirst(rest)
    ensures ScanDigits(Digits(n) + rest) == Number(n, rest)
  {
    EatDigitsPrinted(n, rest);
  }

  lemma ScanMinus(n: nat, rest: seq<byte>)
    requires NoDigitFirst(rest)
    ensures ScanSigned([MINUS] + Digits(n) + rest) == Negate(Number(n, rest))
  {
    var s := [MINUS] + Digits(n) + rest;
    ScanPrintedDigits(n, rest);
    assert s[0] == MINUS && s[1..] == Digits(n) + rest;
  }

  lemma ScanDecimal(i: int, rest: seq<byte>)
    requires NoDigitFirst(rest)
    ensures ScanInt(Decimal(i) + rest) == Number(i, rest)
  {
    SkipNothing(Decimal(i) + rest);
    if i < 0 {
      ScanMinus(-i, rest);
    } else {
      ScanPrintedDigits(i, rest);
    }
  }

  lemma ScanPadded(i: int, width: nat, rest: seq<byte>)
    requires NoDigitFirst(rest)
    ensures ScanInt([BLANK] + (Padded(i, width) + rest)) == Number(i, rest)
  {
    SkipBlank(Padded(i, width) + rest);
    SkipPadding(Decimal(i), width, rest);
    ScanDecimal(i, rest);
    SkipNothing(Decimal(i) + rest);
    assert SkipSpace([BLANK] + (Padded(i, width) + rest)) == SkipSpace(Decimal(i) + rest);
  }

  lemma ScanWord(word: seq<byte>, rest: seq<byte>)
    requires word != [] && !IsSpace(word[0])
    ensures ScanField([BLANK] + (word + rest), word) == ScanInt(rest)
  {
    SkipBlank(word + rest);
    SkipNothing(word + rest);
    assert (word + rest)[|word|..] == rest;
  }

  /** Scanning a printed text gives the triple back, whatever non-digit follows it. */
  lemma PrintScan(c: ChannelInfo, rest: seq<byte>)
    requires NoDigitFirst(rest)
    ensures Scan(Print(c) + rest) == ScanResult(3, c)
  {
    var r3 := Padded(c.adcType, 1) + rest;
    var t3 := [BLANK] + (TYPE + ([BLANK] + r3));
    var r2 := Padded(c.numChannels, 1) + t3;
    var t2 := [BLANK] + (CHANS + ([BLANK] + r2));
    var r1 := [BLANK] + (Padded(c.sps, 3) + t2);
    ReassociatePrint(c, rest);
    assert (SPS + r1)[|SPS|..] == r1;
    ScanPadded(c.sps, 3, t2);
    ScanWord(CHANS, [BLANK] + r2);
    ScanPadded(c.numChannels, 1, t3);
    ScanWord(TYPE, [BLANK] + r3);
    ScanPadded(c.adcType, 1, rest);
  }

  lemma ReassociatePrint(c: ChannelInfo, rest: seq<byte>)
    ensures Print(c) + rest ==
            SPS + ([BLANK] + (Padded(c.sps, 3) + ([BLANK] + (CHANS + ([BLANK] + (Padded(c.numChannels, 1)
            + ([BLANK] + (TYPE + ([BLANK] + (Padded(c.adcType, 1) + rest))))))))))
  {
    var s4 := [BLANK] + Padded(c.adcType, 1);
    var s3 := [BLANK] + (TYPE + s4);
    var s2 := [BLANK] + (Padded(c.numChannels, 1) + s3);
    var s1 := [BLANK] + (CHANS + s2);
    var s0 := [BLANK] + (Padded(c.sps, 3) + s1);
    ConcatAssociative([BLANK], Padded(c.adcType, 1), rest);
    Reassociate(TYPE, s4, rest);
    Reassociate(Padded(c.numChannels, 1), s3, rest);
    Reassociate(CHANS, s2, rest);
    Reassociate(Padded(c.sps, 3), s1, rest);
    ConcatAssociative(SPS, s0, rest);
  }

  lemma Reassociate(a: seq<byte>, b: seq<byte>, rest: seq<byte>)
    ensures [BLANK] + (a + b) + rest == [BLANK] + (a + (b + rest))
  {
  }

  // ----- the accepted triples -----

  predicate Accepted(c: ChannelInfo) {
    && 1 <= c.numChannels <= 8 && 1 <= c.adcType <= 9
    && c.sps in [10, 20, 25, 50, 100, 200, 500]
  }

  method CheckChannelInfo(c: ChannelInfo) returns (bad: int)
    ensures bad == if Accepted(c) then 0 else 1
    ensures bad == 0 <==>
      && 1 <= c.numChannels <= 8 && 1 <= c.adcType <= 9
      && (c.sps == 10 || c.sps == 20 || c.sps == 25 || c.sps == 50 || c.sps == 100 || c.sps == 200 || c.sps == 500)
  {
    var validSps := [10, 20, 25, 50, 100, 200, 500, 0];
    if c.numChannels < 1 || c.numChannels > 8 {
      return 1;
    }
    if c.adcType < 1 || c.adcType > 9 {
      return 1;
    }
    var i := 0;
    while validSps[i] > 0
      invariant 0 <= i < 8
      invariant c.sps !in validSps[..i]
      decreases 8 - i
    {
      if c.sps == validSps[i] {
        return 0;
      }
      i := i + 1;
    }
    assert validSps[..i] == [10, 20, 25, 50, 100, 200, 500];
    return 1;
  }

  /** A whole channel information text as it travels on the wire. */
  ghost predicate IsConfigText(b: seq<byte>) {
    && |b| == CHANINFOLEN && CHANTOKEN <= b && Leftmost(b, ADCTOKEN) == -1
    && Scan(b).count == 3 && Accepted(Scan(b).info)
  }

  lemma AsciiHasNoAdcToken(b: seq<byte>)
    requires Ascii(b)
    ensures Leftmost(b, ADCTOKEN) == -1
  {
    forall i | 0 <= i <= |b| - 4
      ensures !OccursAt(b, ADCTOKEN, i)
    {
      assert b[i..i + 4][0] == b[i];
    }
  }

  lemma AsciiConcat(a: seq<byte>, b: seq<byte>)
    requires Ascii(a) && Ascii(b)
    ensures Ascii(a + b)
  {
  }

  lemma StartsWithToken(s: seq<byte>)
    ensures (SPS + ([BLANK] + s))[..5] == CHANTOKEN
  {
  }

  lemma PrintedShape(c: ChannelInfo)
    requires Accepted(c)
    ensures |Print(c)| == CHANINFOLEN && Ascii(Print(c))
    ensures Print(c)[..5] == CHANTOKEN
  {
    var b := [BLANK];
    var s3 := b + (TYPE + (b + Padded(c.adcType, 1)));
    AsciiConcat(b, Padded(c.adcType, 1));
    AsciiConcat(TYPE, b + Padded(c.adcType, 1));
    AsciiConcat(b, TYPE + (b + Padded(c.adcType, 1)));
    var s2 := b + (CHANS + (b + (Padded(c.numChannels, 1) + s3)));
    AsciiConcat(Padded(c.numChannels, 1), s3);
    AsciiConcat(b, Padded(c.numChannels, 1) + s3);
    AsciiConcat(CHANS, b + (Padded(c.numChannels, 1) + s3));
    AsciiConcat(b, CHANS + (b + (Padded(c.numChannels, 1) + s3)));
    AsciiConcat(Padded(c.sps, 3), s2);
    AsciiConcat(b, Padded(c.sps, 3) + s2);
    AsciiConcat(SPS, b + (Padded(c.sps, 3) + s2));
    StartsWithToken(Padded(c.sps, 3) + s2);
  }

  /** What the server prints for an accepted triple is exactly one such text. */
  lemma PrintedIsConfigText(c: ChannelInfo)
    requires Accepted(c)
    ensures IsConfigText(Print(c)) && Scan(Print(c)).info == c
  {
    PrintScan(c, []);
    assert Print(c) + [] == Print(c);
    PrintedShape(c);
    AsciiHasNoAdcToken(Print(c));
  }

  // ----- other texts that scan alike -----

  /** White space, of any of the six kinds. */
  ghost predicate White(w: seq<byte>) {
    forall i :: 0 <= i < |w| ==> w[i] == 9 || w[i] == 10 || w[i] == 11 || w[i] == 12 || w[i] == 13 || w[i] == 32
  }

  /** A number with the sign it may have. */
  function Signed(i: int, plus: bool): (s: seq<byte>)
    ensures |s| > 0 && !IsSpace(s[0])
  {
    if i < 0 then [MINUS] + Digits(-i) else if plus then [PLUS] + Digits(i) else Digits(i)
  }

  lemma {:induction false} SkipWhite(w: seq<byte>, rest: seq<byte>)
    requires White(w)
    ensures SkipSpace(w + rest) == SkipSpace(rest)
  {
    if w == [] {
      assert w + rest == rest;
    } else {
      SkipWhite(w[1..], rest);
      assert (w + rest)[1..] == w[1..] + rest;
    }
  }

  lemma ScanAnySign(w: seq<byte>, i: int, plus: bool, rest: seq<byte>)
    requires White(w) && NoDigitFirst(rest)
    ensures ScanInt(w + (Signed(i, plus) + rest)) == Number(i, rest)
  {
    var t := Signed(i, plus) + rest;
    SkipWhite(w, t);
    SkipNothing(t);
    if i < 0 {
      ScanMinus(-i, rest);
    } else if plus {
      ScanPlus(i, rest);
    } else {
      SkipNothing(Digits(i) + rest);
      ScanDecimal(i, rest);
    }
  }

  lemma ScanPlus(n: nat, rest: seq<byte>)
    requires NoDigitFirst(rest)
    ensures ScanSigned([PLUS] + Digits(n) + rest) == Number(n, rest)
  {
    var s := [PLUS] + Digits(n) + rest;
    ScanPrintedDigits(n, rest);
    assert s[0] == PLUS && s[1..] == Digits(n) + rest;
  }

  lemma ScanAnyField(w: seq<byte>, word: seq<byte>, v: seq<byte>, i: int, plus: bool, rest: seq<byte>)
    requires White(w) && White(v) && NoDigitFirst(rest) && word != [] && !IsSpace(word[0])
    ensures ScanField(w + (word + (v + (Signed(i, plus) + rest))), word) == Number(i, rest)
  {
    var t := v + (Signed(i, plus) + rest);
    SkipWhite(w, word + t);
    SkipNothing(word + t);
    assert (word + t)[|word|..] == t;
    ScanAnySign(v, i, plus, rest);
  }

  lemma WhiteThenLetter(w: seq<byte>, word: seq<byte>, rest: seq<byte>)
    requires White(w) && word != [] && !IsDigit(word[0])
    ensures NoDigitFirst(w + (word + rest))
  {
    if w != [] {
      assert (w + (word + rest))[0] == w[0];
    }
  }

  /** A text scans to the same triple whatever white space stands around its numbers and
      words, and with or without plus signs. */
  lemma ScanSpaced(c: ChannelInfo, plus: bool, w: seq<seq<byte>>, rest: seq<byte>)
    requires |w| == 5 && (forall i :: 0 <= i < 5 ==> White(w[i])) && NoDigitFirst(rest)
    ensures Scan(SPS + (w[0] + (Signed(c.sps, plus) + (w[1] + (CHANS + (w[2] + (Signed(c.numChannels, plus)
              + (w[3] + (TYPE + (w[4] + (Signed(c.adcType, plus) + rest))))))))))) == ScanResult(3, c)
  {
    var t3 := w[3] + (TYPE + (w[4] + (Signed(c.adcType, plus) + rest)));
    var t2 := w[1] + (CHANS + (w[2] + (Signed(c.numChannels, plus) + t3)));
    var t1 := w[0] + (Signed(c.sps, plus) + t2);
    assert (SPS + t1)[|SPS|..] == t1;
    WhiteThenLetter(w[3], TYPE, w[4] + (Signed(c.adcType, plus) + rest));
    WhiteThenLetter(w[1], CHANS, w[2] + (Signed(c.numChannels, plus) + t3));
    ScanAnySign(w[0], c.sps, plus, t2);
    ScanAnyField(w[1], CHANS, w[2], c.numChannels, plus, t3);
    ScanAnyField(w[3], TYPE, w[4], c.adcType, plus, rest);
  }

  /** Without a digit after the white space and the sign there is no number. */
  lemma NoDigitNoNumber(w: seq<byte>, sign: seq<byte>, rest: seq<byte>)
    requires White(w) && (sign == [] || sign == [MINUS] || sign == [PLUS]) && NoDigitFirst(rest)
    requires rest != [] && sign == [] ==> !IsSpace(rest[0]) && rest[0] != MINUS && rest[0] != PLUS
    ensures ScanInt(w + (sign + rest)) == NoMatch
  {
    SkipWhite(w, sign + rest);
    if sign == [] {
      assert sign + rest == rest;
    } else {
      SkipNothing(sign + rest);
      assert (sign + rest)[1..] == rest;
    }
  }

  // ----- the text letter by letter -----

  function Digit(n: nat): byte
    requires n < 10
  {
    (48 + n) as byte
  }

  /** A rate in three columns. */
  function Columns(n: nat): seq<byte>
    requires 10 <= n < 1000
  {
    if n < 100 then [BLANK, Digit(n / 10), Digit(n % 10)] else [Digit(n / 100), Digit(n / 10 % 10), Digit(n % 10)]
  }

  lemma PaddedColumns(n: nat)
    requires 10 <= n < 1000
    ensures Padded(n, 3) == Columns(n)
  {
    assert Digits(n / 10) == if n < 100 then [Digit(n / 10)] else [Digit(n / 100), Digit(n / 10 % 10)];
    if n < 100 {
      assert Pad([BLANK] + Digits(n), 3) == [BLANK] + Digits(n);
    }
  }

  /** The five stretches of the text. */
  lemma PrintedParts(a: seq<byte>, b: seq<byte>, d: seq<byte>)
    requires |a| == 3 && |b| == 1 && |d| == 1
    ensures var t := SPS + ([BLANK] + (a + ([BLANK] + (CHANS + ([BLANK] + (b + ([BLANK] + (TYPE + ([BLANK] + d)))))))));
      && |t| == 25 && t[..5] == SPS + [BLANK] && t[5..8] == a && t[8..16] == [BLANK] + CHANS + [BLANK]
      && t[16] == b[0] && t[17..24] == [BLANK] + TYPE + [BLANK] && t[24] == d[0]
  {
  }

  lemma WordsSpelled()
    ensures Spells(SPS + [BLANK], "SPS: ") && Spells([BLANK] + CHANS + [BLANK], " Chans: ")
    ensures Spells([BLANK] + TYPE + [BLANK], " Type: ")
  {
  }

  /** Which number stands where in the text. */
  lemma PrintedText(c: ChannelInfo)
    requires Accepted(c)
    ensures var t := Print(c);
      && |t| == 25 && Spells(t[..5], "SPS: ") && t[5..8] == Columns(c.sps)
      && Spells(t[8..16], " Chans: ") && t[16] == Digit(c.numChannels)
      && Spells(t[17..24], " Type: ") && t[24] == Digit(c.adcType)
  {
    PaddedColumns(c.sps);
    PrintedParts(Padded(c.sps, 3), Padded(c.numChannels, 1), Padded(c.adcType, 1));
    WordsSpelled();
  }
}
