/** steganography_utils.py: the image codec with a per-channel `set_lsbs`.

    The image is its row-major channel sequence (y outer, x inner, channel
    innermost); `embed_into_image` walks it exactly in that order, so the
    nested pixel loops become one pass over the flat sequence.  The codec
    frames the payload with a "padded" delimiter of `num_lsbs` characters,
    which for every `num_lsbs` in 1..8 is just `num_lsbs` ones; its capacity
    guard counts the payload bits without that delimiter.  The GUI message
    boxes and the closing UTF-8 decode are not part of the model, and every
    caught exception becomes `None`. */
module StegoUtils {
  import opened Outcomes
  import opened Bits
  import opened Lsb
  import opened Groups

  /** `s * n` for a bit string. */
  function Repeat(s: Bits, n: nat): (r: Bits)
    ensures |r| == |s| * n
    ensures forall i :: 0 <= i < |s| && |s| <= |r| ==> r[i] == s[i]
  {
    if n == 0 then [] else s + Repeat(s, n - 1)
  }

  /** `(delimiter * (num_lsbs // len(delimiter) + 1))[:num_lsbs]`: the
      canonical delimiter cut to `num_lsbs` characters, which is all ones. */
  function PaddedDelimiter(k: nat): (r: Bits)
    requires 1 <= k <= 8
    ensures |r| == k
    ensures r == Delimiter[..k] && r == Ones(k)
  {
    DelimiterShape();
    Repeat(Delimiter, k / |Delimiter| + 1)[..k]
  }

  /** `embed_into_image`: `None` when the payload bits alone exceed the
      capacity `w*h*c*num_lsbs`, otherwise every channel in turn takes the
      next group through `set_lsbs` until the framed bits run out. */
  function EmbedIntoImage(channels: seq<byte>, payload: seq<byte>, k: nat): (r: Option<seq<byte>>)
    requires 1 <= k <= 8
    ensures r.None? <==> 8 * |payload| > |channels| * k
    ensures r.Some? ==> |r.value| == |channels|
  {
    var payloadBits := BytesToBits(payload);
    if |payloadBits| > |channels| * k then None
    else Some(EmbedGroups(channels, payloadBits + PaddedDelimiter(k), k, ZeroPadded))
  }

  /** What an accepted embedding does to channel `i`, with `s = i * k`: its
      high digits stay, its low digits are bits `s .. s+k` of the framed
      payload padded on the right with zeros, and a channel past the last
      group is unchanged. */
  lemma {:induction false} EmbedIntoImageAt(channels: seq<byte>, payload: seq<byte>, k: nat, i: nat, s: nat)
    requires 1 <= k <= 8 && 8 * |payload| <= |channels| * k && i < |channels| && s == i * k
    ensures var out := EmbedIntoImage(channels, payload, k).value;
      var framed := BytesToBits(payload) + Ones(k);
      && HighBits(out[i], k) == HighBits(channels[i], k)
      && (s < |framed| ==>
            GetLsbs(out[i], k) == framed[s..Min(s + k, |framed|)] + Zeros(k - (Min(s + k, |framed|) - s)))
      && (s >= |framed| ==> out[i] == channels[i])
  {
    var framed := BytesToBits(payload) + PaddedDelimiter(k);
    EmbedGroupsAt(channels, framed, k, ZeroPadded, i, s);
    EmbedKeepsHigh(channels, framed, k, ZeroPadded);
  }

  /** When the delimiter does not fit, the embedding stops silently with
      the channels: the result is the embedding of the framed bits cut at
      the capacity. */
  lemma {:induction false} EmbedIntoImageOverflow(channels: seq<byte>, payload: seq<byte>, k: nat)
    requires 1 <= k <= 8
    requires 8 * |payload| <= |channels| * k < 8 * |payload| + k
    ensures EmbedIntoImage(channels, payload, k)
      == Some(EmbedGroups(channels, (BytesToBits(payload) + Ones(k))[..|channels| * k], k, ZeroPadded))
  {
    EmbedWithBeyondCapacity(channels, BytesToBits(payload) + PaddedDelimiter(k), k, GroupWriter(k, ZeroPadded));
  }

  /** `int(bits, 2).to_bytes(len(bits) // 8, byteorder='big')` with its
      failures as `None`: the empty string is a ValueError, and leading
      `len % 8` bits that are not all zero are an OverflowError.  Otherwise
      the result is the chunking of the remaining whole bytes. */
  function PackBits(bits: Bits): (r: Option<seq<byte>>)
    ensures r.Some? <==> |bits| > 0 && forall i :: 0 <= i < |bits| % 8 ==> !bits[i]
    ensures r.Some? ==> r.value == ChunkBytes(bits[|bits| % 8..])
  {
    if |bits| == 0 then None
    else
      ToBytesFloor(bits);
      ToBytes(Value(bits), |bits| / 8)
  }

  /** The shared extractor: read `num_lsbs` low bits of every channel, cut
      at the first occurrence of `marker`, and pack the bits before it.
      `None` covers a missing marker and every failure of the packing. */
  function ExtractWith(channels: seq<byte>, k: nat, marker: Bits): (r: Option<seq<byte>>)
    requires 1 <= k <= 8
    ensures Absent(LsbStream(channels, k), marker) ==> r.None?
    ensures OccursAt(LsbStream(channels, k), marker, 0) ==> r.None?
    ensures PacksBeforeMarker(LsbStream(channels, k), marker, r)
  {
    var bits := LsbStream(channels, k);
    match Find(bits, marker)
    case None => None
    case Some(p) => PackBits(bits[..p])
  }

  /** What the shared extractor returns for the stream `bits`: nothing when
      `marker` never occurs; when it first occurs at `p`, the bytes packed
      from the bits before it exactly when there are some and their leading
      `p % 8` bits are zeros, and nothing otherwise. */
  ghost predicate PacksBeforeMarker(bits: Bits, marker: Bits, r: Option<seq<byte>>)
  {
    match Find(bits, marker)
    case None => r.None?
    case Some(p) =>
      && p <= |bits|
      && (r.Some? <==> 0 < p && forall i :: 0 <= i < p % 8 ==> !bits[i])
      && (r.Some? ==> r.value == ChunkBytes(bits[p % 8..p]))
  }

  /** `extract_from_image`: the shared extractor with the padded delimiter,
      which is `k` ones. */
  function ExtractFromImage(channels: seq<byte>, k: nat): (r: Option<seq<byte>>)
    requires 1 <= k <= 8
    ensures Absent(LsbStream(channels, k), Ones(k)) ==> r.None?
    ensures OccursAt(LsbStream(channels, k), Ones(k), 0) ==> r.None?
    ensures PacksBeforeMarker(LsbStream(channels, k), Ones(k), r)
  {
    ExtractWith(channels, k, PaddedDelimiter(k))
  }

  /** A stream that starts with the payload bits and then `marker`, where
      `marker` does not occur in the payload bits followed by all but the
      last digit of the marker, extracts as the payload. */
  lemma {:induction false} ReadsBack(channels: seq<byte>, k: nat, payload: seq<byte>, marker: Bits)
    requires 1 <= k <= 8 && |payload| >= 1 && |marker| >= 1
    requires Absent(BytesToBits(payload) + marker[..|marker| - 1], marker)
    requires var framed := BytesToBits(payload) + marker;
      |framed| <= |LsbStream(channels, k)| && LsbStream(channels, k)[..|framed|] == framed
    ensures ExtractWith(channels, k, marker) == Some(payload)
  {
    var pb := BytesToBits(payload);
    FirstMarker(LsbStream(channels, k), pb, marker);
    PackWhole(payload);
  }

  lemma {:induction false} FirstMarker(bits: Bits, pb: Bits, marker: Bits)
    requires |marker| >= 1 && Absent(pb + marker[..|marker| - 1], marker)
    requires |pb + marker| <= |bits| && bits[..|pb + marker|] == pb + marker
    ensures Find(bits, marker) == Some(|pb|) && bits[..|pb|] == pb
  {
    var framed := pb + marker;
    assert bits == framed + bits[|framed|..];
    FindAfterPayload(pb, marker);
    FindExtend(framed, bits[|framed|..], marker);
  }

  /** Packing the bits of a non-empty byte string gives it back. */
  lemma {:induction false} PackWhole(payload: seq<byte>)
    requires |payload| >= 1
    ensures PackBits(BytesToBits(payload)) == Some(payload)
  {
    var pb := BytesToBits(payload);
    assert |pb| % 8 == 0;
    assert pb[|pb| % 8..] == pb;
    ChunkBytesOfBytesToBits(payload);
  }

  /** Round trip as written: it holds when the framed bits fit and no run of
      `num_lsbs` ones starts inside the payload bits, counting a run that
      continues into the delimiter. */
  lemma {:induction false} RoundTrip(channels: seq<byte>, payload: seq<byte>, k: nat)
    requires 1 <= k <= 8 && |payload| >= 1
    requires Absent(BytesToBits(payload) + Ones(k - 1), Ones(k))
    requires 8 * |payload| + k <= |channels| * k
    ensures EmbedIntoImage(channels, payload, k).Some?
    ensures ExtractFromImage(EmbedIntoImage(channels, payload, k).value, k) == Some(payload)
  {
    var marker := PaddedDelimiter(k);
    var framed := BytesToBits(payload) + marker;
    EmbedStreamPrefix(channels, framed, k, ZeroPadded);
    assert marker[..|marker| - 1] == Ones(k - 1);
    ReadsBack(EmbedGroups(channels, framed, k, ZeroPadded), k, payload, marker);
  }

  /** With `num_lsbs = 1` the padded delimiter is the single digit '1', so
      the letter 'A' (01000001) is cut after its first digit and comes back
      as no bytes at all, whatever the cover channels hold. */
  lemma {:induction false} OneLsbLosesPayload(channels: seq<byte>)
    requires |channels| >= 9
    ensures EmbedIntoImage(channels, [65], 1).Some?
    ensures ExtractFromImage(EmbedIntoImage(channels, [65], 1).value, 1) == Some([])
  {
    var framed := BytesToBits([65]) + PaddedDelimiter(1);
    var stego := EmbedGroups(channels, framed, 1, ZeroPadded);
    EmbedStreamPrefix(channels, framed, 1, ZeroPadded);
    var bits := LsbStream(stego, 1);
    LetterA();
    assert bits[0] == framed[0] && bits[1] == framed[1];
    FirstOne(bits);
    ValueZeros(1);
    assert bits[..1] == Zeros(1);
  }

  lemma {:induction false} LetterA()
    ensures BytesToBits([65])[0] == false && BytesToBits([65])[1] == true
  {
    Pow2Byte();
    BinAt(65, 8, 0);
    BinAt(65, 8, 1);
  }

  lemma {:induction false} FirstOne(bits: Bits)
    requires |bits| >= 2 && !bits[0] && bits[1]
    ensures Find(bits, Ones(1)) == Some(1)
  {
    assert bits[1..2] == Ones(1);
    assert !OccursAt(bits, Ones(1), 0) by {
      assert bits[0..1][0] != Ones(1)[0];
    }
    FindIs(bits, Ones(1), 1);
  }

  /** The capacity guard ignores the delimiter: the byte 0 with
      `num_lsbs = 1` passes the guard of an eight-channel cover, the
      delimiter digit is dropped, and extraction finds no delimiter. */
  lemma {:induction false} GuardDropsDelimiter(channels: seq<byte>)
    requires |channels| == 8
    ensures EmbedIntoImage(channels, [0], 1).Some?
    ensures ExtractFromImage(EmbedIntoImage(channels, [0], 1).value, 1).None?
  {
    EmbedIntoImageOverflow(channels, [0], 1);
    ZeroByte();
    var cut := (BytesToBits([0]) + Ones(1))[..8];
    assert cut == Zeros(8);
    var stego := EmbedGroups(channels, cut, 1, ZeroPadded);
    EmbedStreamPrefix(channels, cut, 1, ZeroPadded);
    var bits := LsbStream(stego, 1);
    assert bits == Zeros(8);
    NoOne(bits);
  }

  lemma {:induction false} ZeroByte()
    ensures BytesToBits([0]) == Zeros(8)
  {
    ValueZeros(8);
    BinOfValue(Zeros(8));
  }

  lemma {:induction false} NoOne(bits: Bits)
    requires bits == Zeros(|bits|)
    ensures Absent(bits, Ones(1))
  {
    forall m: nat
      ensures !OccursAt(bits, Ones(1), m)
    {
      if m + 1 <= |bits| {
        assert bits[m..m + 1][0] != Ones(1)[0];
      }
    }
  }
}
