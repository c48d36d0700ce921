/** test/test.py: an experimental image codec that hides a text in the six
    low bits of every colour channel and ends it with "#####".

    `encode` appends the five hashes to the secret, spells each character
    out with `format(ord(c), '08b')`, and gives every channel (pixel by
    pixel, three channels each) the next six digits: the channel becomes
    `int(top_two_digits + slice, 2)`, so a final slice shorter than six
    digits is shifted under the two kept digits rather than padded.
    `decode` concatenates the six low digits of every channel and, after
    each whole pixel, stops once the last 40 digits are those of "#####";
    it then turns every eight-digit chunk (the last possibly shorter) into
    a character, hashes included.

    An image is modelled as its row-major channel sequence (three channels
    per pixel); reading and writing the image files is I/O. */
module TestCodec {
  import opened Outcomes
  import opened Bits
  import opened Lsb
  import opened Groups
  import StegoUtils

  // ---------------------------------------------------------------------------
  // to_bin
  // ---------------------------------------------------------------------------

  /** The argument types `to_bin` tells apart with `type(data) == ...`. */
  datatype PyValue =
    | Str(text: string)
    | ByteItems(items: seq<byte>)   // `bytes`, or a `numpy.uint8` array such as a pixel
    | Int(n: int)                   // `int` or `numpy.uint8`
    | Unsupported                   // every other type

  /** A joined digit string, or one digit string per item. */
  datatype Binary = Joined(digits: string) | PerItem(items: seq<string>)

  const TypeNotSupported: string := "Type not supported."

  /** Every character is a binary digit. */
  predicate BinaryDigits(s: string)
  {
    forall i :: 0 <= i < |s| ==> s[i] == '0' || s[i] == '1'
  }

  /** The '0'/'1' characters of a bit string. */
  function Digits(b: Bits): (r: string)
    ensures |r| == |b|
    ensures forall i :: 0 <= i < |b| ==> r[i] == (if b[i] then '1' else '0')
    ensures BinaryDigits(r) && ParseBits(r) == b
  {
    var r := seq(|b|, i requires 0 <= i < |b| => if b[i] then '1' else '0');
    assert forall i :: 0 <= i < |b| ==> (r[i] == '1' <==> b[i]);
    r
  }

  /** `format(n, '08b')`: at least eight digits for `n >= 0`; for a negative
      `n` the minus sign counts toward the width. */
  function Format08b(n: int): (r: string)
    ensures |r| >= 8
    ensures n >= 0 ==> BinaryDigits(r) && Value(ParseBits(r)) == n
    ensures 0 <= n < 256 ==> |r| == 8
    ensures n >= 256 ==> |r| > 8 && r[0] == '1'
    ensures n < 0 ==> r[0] == '-' && BinaryDigits(r[1..]) && Value(ParseBits(r[1..])) == -n
    ensures n <= -128 ==> r[1] == '1'
  {
    Pow2Byte();
    if n >= 0 then
      ValueOfBin(n, 8);
      BinWide(n, 8);
      Digits(Bin(n, 8))
    else
      ValueOfBin(-n, 7);
      BinWide(-n, 7);
      assert Pow2(7) == 128;
      var digits := Digits(Bin(-n, 7));
      assert ("-" + digits)[1..] == digits;
      "-" + digits
  }

  /** `format(ord(c), '08b')`: eight digits below U+0100, more above. */
  function CharBits(c: char): (r: Bits)
    ensures Value(r) == c as int
    ensures |r| >= 8
    ensures (c as int) < 256 ==> |r| == 8
    ensures (c as int) >= 256 ==> |r| > 8 && r[0]
  {
    Pow2Byte();
    ValueOfBin(c as int, 8);
    BinWide(c as int, 8);
    Bin(c as int, 8)
  }

  /** `''.join(format(ord(i), '08b') for i in data)`: at least eight digits
      per character, exactly eight below U+0100. */
  function TextBits(s: string): (r: Bits)
    ensures |r| >= 8 * |s|
    ensures Latin1(s) ==> |r| == 8 * |s|
  {
    if |s| == 0 then [] else CharBits(s[0]) + TextBits(s[1..])
  }

  /** `to_bin(data)`: a string becomes its joined digits, bytes or an array
      one eight-digit string per item, an integer its own digits, and any
      other type raises TypeError. */
  function ToBin(data: PyValue): (r: Result<Binary>)
    ensures r.Raise? <==> data.Unsupported?
    ensures r.Raise? ==> r.exception == TypeError(TypeNotSupported)
    ensures data.Str? ==>
      && r.Ok? && r.value.Joined?
      && BinaryDigits(r.value.digits) && ParseBits(r.value.digits) == TextBits(data.text)
    ensures data.ByteItems? ==>
      && r.Ok? && r.value.PerItem? && |r.value.items| == |data.items|
      && forall i :: 0 <= i < |data.items| ==>
           && |r.value.items[i]| == 8 && BinaryDigits(r.value.items[i])
           && Value(ParseBits(r.value.items[i])) == data.items[i]
    ensures data.Int? && data.n >= 0 ==>
      && r.Ok? && r.value.Joined?
      && BinaryDigits(r.value.digits) && Value(ParseBits(r.value.digits)) == data.n
    ensures data.Int? && 0 <= data.n < 256 ==> |r.value.digits| == 8
    ensures data.Int? && data.n < 0 ==>
      && r.Ok? && r.value.Joined? && |r.value.digits| >= 8 && r.value.digits[0] == '-'
      && BinaryDigits(r.value.digits[1..]) && Value(ParseBits(r.value.digits[1..])) == -data.n
  {
    match data
    case Str(s) => Ok(Joined(Digits(TextBits(s))))
    case ByteItems(items) => Ok(PerItem(seq(|items|, i requires 0 <= i < |items| => Format08b(items[i]))))
    case Int(n) => Ok(Joined(Format08b(n)))
    case Unsupported => Raise(TypeError(TypeNotSupported))
  }

  /** Every character below U+0100. */
  predicate Latin1(s: string)
  {
    forall i :: 0 <= i < |s| ==> (s[i] as int) < 256
  }

  /** The code points of such a text, as bytes. */
  function Codes(s: string): (r: seq<byte>)
    requires Latin1(s)
    ensures |r| == |s| && forall i :: 0 <= i < |s| ==> r[i] == s[i] as int
  {
    seq(|s|, i requires 0 <= i < |s| => s[i] as int)
  }

  /** Characters with the given code points (`chr`). */
  function Chars(bs: seq<byte>): (r: string)
    ensures |r| == |bs| && forall i :: 0 <= i < |bs| ==> r[i] as int == bs[i]
  {
    seq(|bs|, i requires 0 <= i < |bs| => bs[i] as char)
  }

  lemma {:induction false} CharsOfCodes(s: string)
    requires Latin1(s)
    ensures Chars(Codes(s)) == s
  {
  }

  /** Below U+0100 the digits of a text are the eight-bit spelling of its
      code points, so eight-digit chunks read it back. */
  lemma {:induction false} TextBitsOfLatin1(s: string)
    requires Latin1(s)
    ensures TextBits(s) == BytesToBits(Codes(s))
    ensures |TextBits(s)| == 8 * |s|
    ensures Chars(ChunkBytes(TextBits(s))) == s
  {
    if |s| > 0 {
      TextBitsOfLatin1(s[1..]);
      assert Codes(s[1..]) == Codes(s)[1..];
    }
    ChunkBytesOfBytesToBits(Codes(s));
    CharsOfCodes(s);
  }

  lemma {:induction false} TextBitsAppend(a: string, b: string)
    ensures TextBits(a + b) == TextBits(a) + TextBits(b)
  {
    if |a| == 0 {
      assert a + b == b;
    } else {
      assert (a + b)[0] == a[0];
      assert (a + b)[1..] == a[1..] + b;
      TextBitsAppend(a[1..], b);
    }
  }

  /** What `to_bin` makes of a text below U+0100 reads back with eight-digit
      chunks. */
  lemma {:induction false} ToBinReadsBack(s: string)
    requires Latin1(s)
    ensures ToBin(Str(s)).Ok? && ToBin(Str(s)).value.Joined?
    ensures |ToBin(Str(s)).value.digits| == 8 * |s|
    ensures Chars(ChunkBytes(ParseBits(ToBin(Str(s)).value.digits))) == s
  {
    TextBitsOfLatin1(s);
  }

  // ---------------------------------------------------------------------------
  // encode
  // ---------------------------------------------------------------------------

  const Hashes: string := "#####"
  const Insufficient: string := "[*] Insufficient bytes, need bigger image or less data."

  /** The whole bit string `encode` writes: the secret and the hashes. */
  function Framed(secret: string): Bits
  {
    TextBits(secret + Hashes)
  }

  /** `encode` on the channels of an image of `|channels| / 3` pixels:
      `n_bytes = h * w * 3 // 8`, and a secret whose length plus five
      exceeds `6 * n_bytes` is refused before any channel is written. */
  function Encode(channels: seq<byte>, secret: string): (r: Result<seq<byte>>)
    requires |channels| % 3 == 0
    ensures r.Raise? <==> |secret| + 5 > |channels| / 8 * 6
    ensures r.Raise? ==> r.exception == ValueError(Insufficient)
    ensures r.Ok? ==> |r.value| == |channels|
  {
    if |secret + Hashes| > |channels| / 8 * 6 then Raise(ValueError(Insufficient))
    else Ok(EmbedGroups(channels, Framed(secret), 6, Appended))
  }

  /** Channel `i` (with `s = 6 i`) becomes its two high digits followed by
      its slice while `s` is inside the bit string: a full slice fills the
      six low digits, a short one of `m` digits gives a value of only
      `2 + m` digits.  Channels past the end are untouched. */
  lemma {:induction false} EncodeAt(channels: seq<byte>, secret: string, i: nat, s: nat)
    requires |channels| % 3 == 0 && |secret| + 5 <= |channels| / 8 * 6
    requires i < |channels| && s == 6 * i
    ensures var out := Encode(channels, secret).value;
      var bits := Framed(secret);
      && (s < |bits| ==>
            Octet(out[i]) == Zeros(6 - (Min(s + 6, |bits|) - s)) + HighBits(channels[i], 6) + bits[s..Min(s + 6, |bits|)])
      && (s >= |bits| ==> out[i] == channels[i])
  {
    var bits := Framed(secret);
    EmbedGroupsAt(channels, bits, 6, Appended, i, s);
  }

  /** A full slice keeps the channel's two high digits and is read back by
      the decoder's `[-6:]`. */
  lemma {:induction false} EncodeFullSlice(channels: seq<byte>, secret: string, i: nat)
    requires |channels| % 3 == 0 && |secret| + 5 <= |channels| / 8 * 6
    requires i < |channels| && 6 * i + 6 <= |Framed(secret)|
    ensures HighBits(Encode(channels, secret).value[i], 6) == HighBits(channels[i], 6)
    ensures GetLsbs(Encode(channels, secret).value[i], 6) == Framed(secret)[6 * i..6 * i + 6]
  {
    var bits := Framed(secret);
    EmbedGroupsAt(channels, bits, 6, Appended, i, 6 * i);
    assert Min(6 * i + 6, |bits|) == 6 * i + 6;
    WriteFullGroup(channels[i], 6, bits[6 * i..6 * i + 6], Appended);
    ReplaceUnique(channels[i], 6, bits[6 * i..6 * i + 6], Encode(channels, secret).value[i]);
  }

  /** The capacity test is sound for text below U+0100: an accepted secret
      and its hashes fit in the six low digits of the channels. */
  lemma {:induction false} EncodeFits(channels: seq<byte>, secret: string)
    requires |channels| % 3 == 0 && Latin1(secret)
    requires Encode(channels, secret).Ok?
    ensures |Framed(secret)| == 8 * (|secret| + 5)
    ensures |Framed(secret)| <= 6 * |channels|
  {
    HashesLatin1();
    LatinAppend(secret, Hashes);
    TextBitsOfLatin1(secret + Hashes);
    assert 8 * (|channels| / 8) <= |channels|;
  }

  lemma {:induction false} HashesLatin1()
    ensures Latin1(Hashes) && |Hashes| == 5
  {
  }

  lemma {:induction false} LatinAppend(a: string, b: string)
    requires Latin1(a) && Latin1(b)
    ensures Latin1(a + b)
  {
    forall i | 0 <= i < |a + b|
      ensures ((a + b)[i] as int) < 256
    {
      if i < |a| {
        assert (a + b)[i] == a[i];
      } else {
        assert (a + b)[i] == b[i - |a|];
      }
    }
  }

  // ---------------------------------------------------------------------------
  // decode
  // ---------------------------------------------------------------------------

  /** The eight digits of '#' (code point 35). */
  const HashOctetDigits: string := "00100011"

  /** The forty digits `decode` looks for (line 85 spells them out as one
      literal): the digits of '#' five times. */
  const HashDigits: string := HashOctetDigits + HashOctetDigits + HashOctetDigits + HashOctetDigits + HashOctetDigits

  const HashMark: Bits := ParseBits(HashDigits)

  /** The same digits as bits. */
  const HashOctet: Bits := [false, false, true, false, false, false, true, true]

  /** They are the digits of the hashes `encode` appends. */
  lemma {:induction false} HashMarkIsHashes()
    ensures |HashMark| == 40
    ensures TextBits(Hashes) == HashMark
  {
    HashMarkOctets();
    HashesOctets();
  }

  lemma {:induction false} HashesOctets()
    ensures TextBits(Hashes) == HashOctet + HashOctet + HashOctet + HashOctet + HashOctet
  {
    OctetOfHash();
    var t := "#";
    assert TextBits(t) == HashOctet;
    TextBitsAppend(t, t);
    TextBitsAppend(t + t, t);
    TextBitsAppend(t + t + t, t);
    TextBitsAppend(t + t + t + t, t);
    assert Hashes == t + t + t + t + t;
  }

  /** `format(35, '08b') == '00100011'`, one halving at a time. */
  lemma {:induction false} OctetOfHash()
    ensures CharBits('#') == HashOctet
  {
    assert Bin(35, 8) == Bin(17, 7) + [true];
    assert Bin(17, 7) == Bin(8, 6) + [true];
    assert Bin(8, 6) == Bin(4, 5) + [false];
    assert Bin(4, 5) == Bin(2, 4) + [false];
    assert Bin(2, 4) == Bin(1, 3) + [false];
    assert Bin(1, 3) == Bin(0, 2) + [true];
    assert Bin(0, 2) == Bin(0, 1) + [false];
    assert Bin(0, 1) == Bin(0, 0) + [false];
  }

  lemma {:induction false} HashMarkOctets()
    ensures HashMark == HashOctet + HashOctet + HashOctet + HashOctet + HashOctet
  {
    OctetDigits();
    ParseFive(HashOctetDigits);
  }

  lemma {:induction false} OctetDigits()
    ensures ParseBits(HashOctetDigits) == HashOctet
  {
  }

  lemma {:induction false} ParseFive(x: string)
    ensures ParseBits(x + x + x + x + x) == ParseBits(x) + ParseBits(x) + ParseBits(x) + ParseBits(x) + ParseBits(x)
  {
    ParseAppend(x, x);
    ParseAppend(x + x, x);
    ParseAppend(x + x + x, x);
    ParseAppend(x + x + x + x, x);
  }

  lemma {:induction false} ParseAppend(a: string, b: string)
    ensures ParseBits(a + b) == ParseBits(a) + ParseBits(b)
  {
  }

  /** After `j` pixels the digits read so far end with `mark`. */
  predicate MarkAt(stream: Bits, mark: Bits, j: nat)
  {
    18 * j <= |stream| && EndsWith(stream[..18 * j], mark)
  }

  /** Where `decode` stops reading, searching from pixel `from` on: after the
      first pixel whose last digits are the mark, or at the end of the image
      when there is none. */
  function StopAt(stream: Bits, mark: Bits, from: nat, pixels: nat): (r: nat)
    requires |stream| == 18 * pixels
    ensures r % 18 == 0 && r <= |stream|
    ensures r < |stream| ==> MarkAt(stream, mark, r / 18)
    ensures forall j :: from <= j && 18 * j < r ==> !MarkAt(stream, mark, j)
    decreases pixels + 1 - from
  {
    if from > pixels then
      assert forall j :: from <= j ==> 18 * j >= |stream|;
      |stream|
    else if MarkAt(stream, mark, from) then 18 * from
    else StopAt(stream, mark, from + 1, pixels)
  }

  /** `decode` on the channels of an image of `|channels| / 3` pixels. */
  function Decode(channels: seq<byte>): (r: string)
    requires |channels| % 3 == 0
    ensures |r| <= (6 * |channels| + 7) / 8
    ensures forall i :: 0 <= i < |r| ==> (r[i] as int) < 256
  {
    var stream := LsbStream(channels, 6);
    Chars(ChunkBytes(stream[..StopAt(stream, HashMark, 1, |channels| / 3)]))
  }

  /** The mark shows at no pixel boundary before the end of the bit string. */
  ghost predicate NoEarlyMark(bits: Bits, mark: Bits)
  {
    forall j :: 1 <= j && 18 * j < |bits| ==> !MarkAt(bits, mark, j)
  }

  /** Where the stream agrees with the bit string, so do the marks. */
  lemma {:induction false} MarkPrefix(stream: Bits, bits: Bits, mark: Bits, j: nat)
    requires |bits| <= |stream| && stream[..|bits|] == bits && 18 * j <= |bits|
    ensures MarkAt(stream, mark, j) == MarkAt(bits, mark, j)
  {
    assert stream[..18 * j] == bits[..18 * j];
  }

  /** The first mark, if it lies before the stop, is where `StopAt` stops. */
  lemma {:induction false} StopsAtMark(stream: Bits, mark: Bits, pixels: nat, j: nat)
    requires |stream| == 18 * pixels && |mark| >= 1 && 1 <= j && MarkAt(stream, mark, j)
    requires forall m :: 1 <= m < j ==> !MarkAt(stream, mark, m)
    ensures StopAt(stream, mark, 1, pixels) == 18 * j
  {
  }

  /** The hashes and the mark, as the round trips use them. */
  lemma {:induction false} HashesFacts(secret: string)
    requires Latin1(secret)
    ensures |HashMark| == 40 && HashMark[..|HashMark| - 1] == HashMark[..39]
    ensures Latin1(secret + Hashes) && |secret + Hashes| == |secret| + 5
    ensures Framed(secret) == TextBits(secret) + HashMark
  {
    HashMarkIsHashes();
    TextBitsAppend(secret, Hashes);
    HashesLatin1();
    LatinAppend(secret, Hashes);
  }

  /** Where the mark ends on a pixel boundary (the secret plus its hashes is
      a multiple of nine characters, so its digits a multiple of 72), every
      slice is full and `decode` returns the secret followed by the hashes. */
  lemma {:induction false} RoundTripAligned(channels: seq<byte>, secret: string)
    requires |channels| % 3 == 0 && Latin1(secret)
    requires |secret| + 5 <= |channels| / 8 * 6
    requires (|secret| + 5) % 9 == 0
    requires NoEarlyMark(Framed(secret), HashMark)
    ensures Encode(channels, secret).Ok?
    ensures Decode(Encode(channels, secret).value) == secret + Hashes
  {
    HashesFacts(secret);
    EncodeFits(channels, secret);
    WholePixels(|secret + Hashes|, |channels|);
    FramedEndsWithMark(secret);
    EmbedStreamPrefix(channels, Framed(secret), 6, Appended);
    ReadsText(LsbStream(Encode(channels, secret).value, 6), |channels| / 3, Framed(secret), HashMark);
    TextBitsOfLatin1(secret + Hashes);
  }

  lemma {:induction false} FramedEndsWithMark(secret: string)
    requires Framed(secret) == TextBits(secret) + HashMark
    ensures EndsWith(Framed(secret), HashMark)
  {
    assert (TextBits(secret) + HashMark)[|TextBits(secret)|..] == HashMark;
  }

  /** Nine characters are 72 digits, four pixels' worth; three channels
      are one pixel. */
  lemma {:induction false} WholePixels(n: nat, c: nat)
    requires n % 9 == 0 && c % 3 == 0
    ensures (8 * n) % 6 == 0 && (8 * n) % 18 == 0
    ensures 6 * c == 18 * (c / 3)
  {
  }

  /** A stream of whole pixels that starts with a bit string ending in the
      mark, whose length is a whole number of pixels and in which no earlier
      pixel boundary shows the mark, is read back as that bit string. */
  lemma {:induction false} ReadsText(stream: Bits, pixels: nat, bits: Bits, mark: Bits)
    requires |stream| == 18 * pixels && |bits| % 18 == 0
    requires 1 <= |mark| <= |bits| && EndsWith(bits, mark) && NoEarlyMark(bits, mark)
    requires |bits| <= |stream| && stream[..|bits|] == bits
    ensures StopAt(stream, mark, 1, pixels) == |bits|
    ensures stream[..StopAt(stream, mark, 1, pixels)] == bits
  {
    var j := |bits| / 18;
    FirstMarkAt(stream, bits, mark, j);
    StopsAtMark(stream, mark, pixels, j);
  }

  /** The stream repeats the bit string's marks: the one at its end and the
      absence of any before. */
  lemma {:induction false} FirstMarkAt(stream: Bits, bits: Bits, mark: Bits, j: nat)
    requires 18 * j == |bits| <= |stream| && stream[..|bits|] == bits
    requires EndsWith(bits, mark) && NoEarlyMark(bits, mark)
    ensures MarkAt(stream, mark, j)
    ensures forall m :: 1 <= m < j ==> !MarkAt(stream, mark, m)
  {
    MarkPrefix(stream, bits, mark, j);
    assert bits[..18 * j] == bits;
    forall m | 1 <= m < j
      ensures !MarkAt(stream, mark, m)
    {
      MarkPrefix(stream, bits, mark, m);
    }
  }

  /** An image of three pixels accepts the empty secret (five characters
      against `9 // 8 * 6 = 6`), yet `decode` cannot stop before the mark is
      complete, which is only after the third pixel, and then returns seven
      characters rather than the five hashes. */
  lemma {:induction false} ThreePixelsMisread(channels: seq<byte>)
    requires |channels| == 9
    ensures Encode(channels, "").Ok?
    ensures |Decode(Encode(channels, "").value)| == 7
    ensures Decode(Encode(channels, "").value) != "" + Hashes
  {
    HashesFacts("");
    SeventhCharacter(LsbStream(Encode(channels, "").value, 6), HashMark);
  }

  /** Fifty-four digits with a mark of forty: the stop is at the end. */
  lemma {:induction false} SeventhCharacter(stream: Bits, mark: Bits)
    requires |stream| == 54 && |mark| == 40
    ensures |ChunkBytes(stream[..StopAt(stream, mark, 1, 3)])| == 7
  {
    assert !MarkAt(stream, mark, 1) && !MarkAt(stream, mark, 2);
  }

  // ---------------------------------------------------------------------------
  // The corrected codec
  // ---------------------------------------------------------------------------

  /** `encode` with a short final slice padded with zeros on the right, so
      that the six low digits of every written channel start with its slice. */
  function EncodeCorrected(channels: seq<byte>, secret: string): (r: Result<seq<byte>>)
    requires |channels| % 3 == 0
    ensures r.Raise? <==> |secret| + 5 > |channels| / 8 * 6
    ensures r.Raise? ==> r.exception == ValueError(Insufficient)
    ensures r.Ok? ==> |r.value| == |channels|
  {
    if |secret + Hashes| > |channels| / 8 * 6 then Raise(ValueError(Insufficient))
    else Ok(EmbedGroups(channels, Framed(secret), 6, ZeroPadded))
  }

  /** `n` is the first length at which the digits read so far end with
      `mark`: the point where a reader testing after every bit stops. */
  ghost predicate FirstMarkEnd(stream: Bits, mark: Bits, n: nat)
  {
    && n <= |stream| && EndsWith(stream[..n], mark)
    && forall m :: 0 <= m < n ==> !EndsWith(stream[..m], mark)
  }

  /** The digits read until they first end with `mark`, as characters; all
      of them when they never do. */
  function ReadToMark(stream: Bits, mark: Bits): (r: string)
    ensures forall n: nat :: FirstMarkEnd(stream, mark, n) ==> r == Chars(ChunkBytes(stream[..n]))
    ensures (forall n :: 0 <= n <= |stream| ==> !EndsWith(stream[..n], mark)) ==> r == Chars(ChunkBytes(stream))
  {
    match Find(stream, mark)
    case None => NeverEnds(stream, mark); Chars(ChunkBytes(stream))
    case Some(p) => FirstEndAfterFind(stream, mark, p); Chars(ChunkBytes(stream[..p + |mark|]))
  }

  /** The first occurrence of `mark` ends where the digits first end with
      it, and nowhere else do they first end with it. */
  lemma {:induction false} FirstEndAfterFind(stream: Bits, mark: Bits, p: nat)
    requires Find(stream, mark) == Some(p)
    ensures FirstMarkEnd(stream, mark, p + |mark|)
    ensures forall n: nat :: FirstMarkEnd(stream, mark, n) ==> n == p + |mark|
  {
    var e := p + |mark|;
    assert stream[..e][p..] == stream[p..e];
    forall m | 0 <= m < e
      ensures !EndsWith(stream[..m], mark)
    {
      if |mark| <= m {
        var q := m - |mark|;
        assert stream[..m][q..] == stream[q..m];
        assert !OccursAt(stream, mark, q);
      }
    }
  }

  /** Without an occurrence of `mark` no prefix ends with it. */
  lemma {:induction false} NeverEnds(stream: Bits, mark: Bits)
    requires Find(stream, mark).None?
    ensures forall n :: 0 <= n <= |stream| ==> !EndsWith(stream[..n], mark)
  {
    forall n | 0 <= n <= |stream|
      ensures !EndsWith(stream[..n], mark)
    {
      if |mark| <= n {
        var q := n - |mark|;
        assert stream[..n][q..] == stream[q..n];
        assert !OccursAt(stream, mark, q);
      }
    }
  }

  /** `decode` stopping at the first bit where the digits read end with the
      mark, rather than only after whole pixels. */
  function DecodeCorrected(channels: seq<byte>): (r: string)
    ensures forall i :: 0 <= i < |r| ==> (r[i] as int) < 256
  {
    ReadToMark(LsbStream(channels, 6), HashMark)
  }

  /** With both repairs every secret below U+0100 that fits, and in which
      the mark does not begin before the hashes, reads back followed by its
      hashes, whatever its length. */
  lemma {:induction false} CorrectedRoundTrip(channels: seq<byte>, secret: string)
    requires |channels| % 3 == 0 && Latin1(secret)
    requires |secret| + 5 <= |channels| / 8 * 6
    requires Absent(TextBits(secret) + HashMark[..39], HashMark)
    ensures EncodeCorrected(channels, secret).Ok?
    ensures DecodeCorrected(EncodeCorrected(channels, secret).value) == secret + Hashes
  {
    HashesFacts(secret);
    EncodeFits(channels, secret);
    EmbedStreamPrefix(channels, Framed(secret), 6, ZeroPadded);
    ReadsMarked(LsbStream(EncodeCorrected(channels, secret).value, 6), TextBits(secret), HashMark);
    TextBitsOfLatin1(secret + Hashes);
  }

  /** A stream that starts with some digits and then the mark, which occurs
      nowhere earlier, is read up to and including the mark. */
  lemma {:induction false} ReadsMarked(stream: Bits, front: Bits, mark: Bits)
    requires 1 <= |mark| && Absent(front + mark[..|mark| - 1], mark)
    requires |front + mark| <= |stream| && stream[..|front + mark|] == front + mark
    ensures ReadToMark(stream, mark) == Chars(ChunkBytes(front + mark))
  {
    var p := |front|;
    StegoUtils.FirstMarker(stream, front, mark);
    ReadsThroughFind(stream, mark, p);
    assert p + |mark| == |front + mark|;
    assert stream[..p + |mark|] == front + mark;
  }

  /** Once the first occurrence is known, the read stops right after it. */
  lemma {:induction false} ReadsThroughFind(stream: Bits, mark: Bits, p: nat)
    requires Find(stream, mark) == Some(p)
    ensures p + |mark| <= |stream|
    ensures ReadToMark(stream, mark) == Chars(ChunkBytes(stream[..p + |mark|]))
  {
    FirstEndAfterFind(stream, mark, p);
  }
}
