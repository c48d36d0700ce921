/** common/bit_manipulation.py: the generic byte-buffer codec.

    `embed_payload_into_bytes` ORs each group of `k` payload bits into a byte
    whose low `k` bits the mask `255 ^ ((1 << k) - 1)` has cleared, so a short
    final group lands right-aligned.  `extract_payload_from_bytes` collects
    the low `k` bits of every byte, cuts at the first occurrence of the
    delimiter at any bit offset, and packs the bits before it into
    `(len + 7) // 8` big-endian bytes.  The final UTF-8 decode is not part of
    the model: extraction returns the recovered bytes. */
module BitManipulation {
  import opened Outcomes
  import opened Bits
  import opened Lsb
  import opened Groups
  import opened FileUtils

  const TooLarge := "Payload is too large to fit in the cover object with the given number of LSBs."
  const DelimiterMissing := "Delimiter not found in the extracted bits."
  const TooBig := "int too big to convert"

  /** `embed_payload_into_bytes(cover, bits, k)`: the capacity check comes
      first, so a refused payload leaves no byte written. */
  function EmbedPayloadIntoBytes(cover: seq<byte>, bits: Bits, k: nat): (r: Result<seq<byte>>)
    requires 1 <= k <= 8
    ensures r.Raise? <==> |bits| > |cover| * k
    ensures r.Raise? ==> r.exception == ValueError(TooLarge)
    ensures r.Ok? ==> |r.value| == |cover|
  {
    if |bits| > |cover| * k then Raise(ValueError(TooLarge))
    else Ok(EmbedGroups(cover, bits, k, RightAligned))
  }

  /** What an accepted embedding does to byte `i`: with `s = i * k`, it keeps
      its high digits and receives bits `s .. s+k` right-aligned as its low
      digits while `s` is inside the payload, and is unchanged otherwise. */
  lemma {:induction false} EmbedPayloadAt(cover: seq<byte>, bits: Bits, k: nat, i: nat, s: nat)
    requires 1 <= k <= 8 && |bits| <= |cover| * k && i < |cover| && s == i * k
    ensures var out := EmbedPayloadIntoBytes(cover, bits, k).value;
      && HighBits(out[i], k) == HighBits(cover[i], k)
      && (s < |bits| ==>
            GetLsbs(out[i], k) == Zeros(k - (Min(s + k, |bits|) - s)) + bits[s..Min(s + k, |bits|)])
      && (s >= |bits| ==> out[i] == cover[i])
  {
    assert EmbedPayloadIntoBytes(cover, bits, k) == Ok(EmbedGroups(cover, bits, k, RightAligned));
    EmbedGroupsAt(cover, bits, k, RightAligned, i, s);
    EmbedKeepsHigh(cover, bits, k, RightAligned);
  }

  /** `extract_payload_from_bytes(stego, k, delimiter)`.  An empty payload
      makes `int('', 2)` raise a ValueError that the function catches and
      turns into `None`; an OverflowError from `to_bytes` would not be
      caught (it cannot happen, see `ExtractNeverOverflows`). */
  function ExtractPayloadFromBytes(stego: seq<byte>, k: nat, delimiter: Bits): (r: Result<Option<seq<byte>>>)
    requires 1 <= k <= 8
    ensures r.Raise? && r.exception.ValueError? <==> Absent(LsbStream(stego, k), delimiter)
    ensures r == Ok(None) <==> OccursAt(LsbStream(stego, k), delimiter, 0)
  {
    ReadDelimited(LsbStream(stego, k), delimiter)
  }

  /** The second half of the extraction: the bits before the first
      delimiter of the stream read back, packed into bytes. */
  function ReadDelimited(bits: Bits, delimiter: Bits): (r: Result<Option<seq<byte>>>)
    ensures r.Raise? && r.exception.ValueError? <==> Absent(bits, delimiter)
    ensures r == Ok(None) <==> OccursAt(bits, delimiter, 0)
  {
    match Find(bits, delimiter)
    case None => Raise(ValueError(DelimiterMissing))
    case Some(p) =>
      assert OccursAt(bits, delimiter, p) && !Absent(bits, delimiter);
      PackHead(bits[..p])
  }

  /** `int(head, 2).to_bytes((len(head) + 7) // 8, 'big')`, with the empty
      head as the caught ValueError: `None` exactly for the empty head, and
      otherwise as many bytes as it takes to hold the head. */
  function PackHead(head: Bits): (r: Result<Option<seq<byte>>>)
    ensures r == Ok(None) <==> |head| == 0
    ensures r.Raise? ==> r.exception == OverflowError(TooBig)
    ensures r.Ok? && r.value.Some? ==> |r.value.value| == (|head| + 7) / 8
  {
    if |head| == 0 then Ok(None)
    else
      match ToBytes(Value(head), (|head| + 7) / 8)
      case None => Raise(OverflowError(TooBig))
      case Some(payload) => Ok(Some(payload))
  }

  lemma {:induction false} PackHeadFits(head: Bits)
    requires |head| > 0
    ensures PackHead(head) == Ok(Some(ChunkBytes(Zeros((8 - |head| % 8) % 8) + head)))
  {
    ToBytesCeil(head);
  }

  /** Packing into `(len + 7) // 8` bytes always fits, and the bytes are the
      bits before the first delimiter, left-padded with zeros to whole bytes. */
  lemma {:induction false} ExtractNeverOverflows(stego: seq<byte>, k: nat, delimiter: Bits)
    requires 1 <= k <= 8
    ensures var r := ExtractPayloadFromBytes(stego, k, delimiter);
      r.Raise? ==> r.exception == ValueError(DelimiterMissing)
    ensures forall p: nat :: Find(LsbStream(stego, k), delimiter) == Some(p) && p > 0 ==>
      ExtractPayloadFromBytes(stego, k, delimiter) == Ok(Some(ChunkBytes(Zeros((8 - p % 8) % 8) + LsbStream(stego, k)[..p])))
  {
    ReadNeverOverflows(LsbStream(stego, k), delimiter);
    forall p: nat | Find(LsbStream(stego, k), delimiter) == Some(p) && p > 0
      ensures ExtractPayloadFromBytes(stego, k, delimiter) == Ok(Some(ChunkBytes(Zeros((8 - p % 8) % 8) + LsbStream(stego, k)[..p])))
    {
      ExtractAt(stego, k, delimiter, p);
    }
  }

  lemma {:induction false} ReadNeverOverflows(bits: Bits, delimiter: Bits)
    ensures var r := ReadDelimited(bits, delimiter);
      r.Raise? ==> r.exception == ValueError(DelimiterMissing)
    ensures forall p: nat :: Find(bits, delimiter) == Some(p) && p > 0 ==>
      ReadDelimited(bits, delimiter) == Ok(Some(ChunkBytes(Zeros((8 - p % 8) % 8) + bits[..p])))
  {
    forall p: nat | Find(bits, delimiter) == Some(p) && p > 0
      ensures ReadDelimited(bits, delimiter) == Ok(Some(ChunkBytes(Zeros((8 - p % 8) % 8) + bits[..p])))
    {
      ReadAt(bits, delimiter, p);
    }
  }

  /** Round trip: a non-empty payload in whose bits the delimiter does not
      occur, framed by `convert_payload_to_bits`, embedded with a `k` that
      divides the framed length, extracts as exactly the payload. */
  lemma {:induction false} RoundTrip(cover: seq<byte>, payload: seq<byte>, k: nat)
    requires 1 <= k <= 8 && |payload| >= 1
    requires Absent(BytesToBits(payload), Delimiter)
    requires (8 * |payload| + 16) % k == 0
    requires 8 * |payload| + 16 <= |cover| * k
    ensures EmbedPayloadIntoBytes(cover, ConvertPayloadToBits(payload, Delimiter), k).Ok?
    ensures ExtractPayloadFromBytes(
      EmbedPayloadIntoBytes(cover, ConvertPayloadToBits(payload, Delimiter), k).value, k, Delimiter)
      == Ok(Some(payload))
  {
    var framed := ConvertPayloadToBits(payload, Delimiter);
    FramedLength(payload);
    var stego := EmbedGroups(cover, framed, k, RightAligned);
    assert EmbedPayloadIntoBytes(cover, framed, k) == Ok(stego);
    EmbedStreamPrefix(cover, framed, k, RightAligned);
    ReadsBackPayload(stego, k, payload);
  }

  lemma {:induction false} FramedLength(payload: seq<byte>)
    ensures |ConvertPayloadToBits(payload, Delimiter)| == 8 * |payload| + 16
  {
  }

  /** An empty payload frames to the bare delimiter.  When `k` divides its
      sixteen bits no group is short, the stream starts with the delimiter,
      and extraction returns `None`. */
  lemma {:induction false} EmptyPayloadIsNone(cover: seq<byte>, k: nat)
    requires 1 <= k <= 8 && 16 % k == 0 && 16 <= |cover| * k
    ensures EmbedPayloadIntoBytes(cover, ConvertPayloadToBits([], Delimiter), k).Ok?
    ensures ExtractPayloadFromBytes(
      EmbedPayloadIntoBytes(cover, ConvertPayloadToBits([], Delimiter), k).value, k, Delimiter)
      == Ok(None)
  {
    DelimiterShape();
    var framed := ConvertPayloadToBits([], Delimiter);
    assert framed == framed[8 * 0..];
    EmbedStreamPrefix(cover, framed, k, RightAligned);
    assert OccursAt(LsbStream(EmbedGroups(cover, framed, k, RightAligned), k), Delimiter, 0);
  }

  /** The shared second half of every round trip: a stream that starts with
      the framed payload yields the payload. */
  lemma {:induction false} ReadsBackPayload(stego: seq<byte>, k: nat, payload: seq<byte>)
    requires 1 <= k <= 8 && |payload| >= 1
    requires Absent(BytesToBits(payload), Delimiter)
    requires var framed := ConvertPayloadToBits(payload, Delimiter);
      |framed| <= |LsbStream(stego, k)| && LsbStream(stego, k)[..|framed|] == framed
    ensures ExtractPayloadFromBytes(stego, k, Delimiter) == Ok(Some(payload))
  {
    StreamReadsBack(LsbStream(stego, k), payload);
  }

  lemma {:induction false} StreamReadsBack(bits: Bits, payload: seq<byte>)
    requires |payload| >= 1
    requires Absent(BytesToBits(payload), Delimiter)
    requires var framed := ConvertPayloadToBits(payload, Delimiter);
      |framed| <= |bits| && bits[..|framed|] == framed
    ensures ReadDelimited(bits, Delimiter) == Ok(Some(payload))
  {
    var pb := BytesToBits(payload);
    PayloadThenDelimiter(bits, pb);
    ReadAt(bits, Delimiter, |pb|);
    NoPadding(|payload|);
    assert Zeros((8 - |pb| % 8) % 8) + bits[..|pb|] == pb;
    ChunkBytesOfBytesToBits(payload);
  }

  /** Extraction once the first delimiter is known to start at `p > 0`. */
  lemma {:induction false} ExtractAt(stego: seq<byte>, k: nat, delimiter: Bits, p: nat)
    requires 1 <= k <= 8
    requires Find(LsbStream(stego, k), delimiter) == Some(p) && p > 0
    ensures ExtractPayloadFromBytes(stego, k, delimiter)
      == Ok(Some(ChunkBytes(Zeros((8 - p % 8) % 8) + LsbStream(stego, k)[..p])))
  {
    ReadAt(LsbStream(stego, k), delimiter, p);
  }

  lemma {:induction false} ReadAt(bits: Bits, delimiter: Bits, p: nat)
    requires Find(bits, delimiter) == Some(p) && p > 0
    ensures ReadDelimited(bits, delimiter) == Ok(Some(ChunkBytes(Zeros((8 - p % 8) % 8) + bits[..p])))
  {
    PackHeadFits(bits[..p]);
  }

  lemma {:induction false} NoPadding(n: nat)
    ensures Zeros((8 - (8 * n) % 8) % 8) == []
  {
    assert (8 * n) % 8 == 0;
  }

  /** A stream that starts with the payload bits and then the delimiter
      finds its first delimiter right after the payload. */
  lemma {:induction false} PayloadThenDelimiter(bits: Bits, pb: Bits)
    requires Absent(pb, Delimiter)
    requires |pb + Delimiter| <= |bits| && bits[..|pb + Delimiter|] == pb + Delimiter
    ensures Find(bits, Delimiter) == Some(|pb|)
    ensures bits[..|pb|] == pb
  {
    FramedPrefix(bits, pb);
    FindDelimiterAfter(pb, bits[|pb + Delimiter|..]);
  }

  lemma {:induction false} FramedPrefix(bits: Bits, pb: Bits)
    requires |pb + Delimiter| <= |bits| && bits[..|pb + Delimiter|] == pb + Delimiter
    ensures bits == pb + Delimiter + bits[|pb + Delimiter|..]
    ensures bits[..|pb|] == pb
  {
    assert bits == bits[..|pb + Delimiter|] + bits[|pb + Delimiter|..];
  }

  /** A delimiter pattern inside the payload truncates it: extraction returns
      the bytes before the pattern's first occurrence. */
  lemma {:induction false} EarlyDelimiterTruncates(cover: seq<byte>, payload: seq<byte>, k: nat, p: nat)
    requires 1 <= k <= 8
    requires (8 * |payload| + 16) % k == 0
    requires 8 * |payload| + 16 <= |cover| * k
    requires Find(BytesToBits(payload), Delimiter) == Some(p) && p > 0
    ensures ExtractPayloadFromBytes(
      EmbedPayloadIntoBytes(cover, ConvertPayloadToBits(payload, Delimiter), k).value, k, Delimiter)
      == Ok(Some(ChunkBytes(Zeros((8 - p % 8) % 8) + BytesToBits(payload)[..p])))
  {
    var pb := BytesToBits(payload);
    var framed := ConvertPayloadToBits(payload, Delimiter);
    var stego := EmbedGroups(cover, framed, k, RightAligned);
    EmbedStreamPrefix(cover, framed, k, RightAligned);
    EarlyDelimiterInStream(LsbStream(stego, k), pb, p);
    ExtractAt(stego, k, Delimiter, p);
  }

  lemma {:induction false} EarlyDelimiterInStream(bits: Bits, pb: Bits, p: nat)
    requires Find(pb, Delimiter) == Some(p)
    requires |pb + Delimiter| <= |bits| && bits[..|pb + Delimiter|] == pb + Delimiter
    ensures Find(bits, Delimiter) == Some(p) && bits[..p] == pb[..p]
  {
    FramedPrefix(bits, pb);
    var rest := bits[|pb + Delimiter|..];
    FindExtend(pb, Delimiter + rest, Delimiter);
    assert bits == pb + (Delimiter + rest);
    PrefixOfPrefix(bits, pb, p);
  }

  lemma {:induction false} PrefixOfPrefix(bits: Bits, pb: Bits, p: nat)
    requires |pb| <= |bits| && bits[..|pb|] == pb && p <= |pb|
    ensures bits[..p] == pb[..p]
  {
  }

  /** The right-aligned short group can forge a delimiter.  The framed bits
      of the one-byte payload `[255]` are 23 ones and a zero; with `k = 5`
      the last group `1110` is written as `01110`, so the stream reads twenty
      ones, a zero, three ones and a zero, and `find` meets fifteen ones and
      a zero already at offset 5.  Whatever the five cover bytes hold, the
      payload comes back as `[31]`. */
  lemma {:induction false} RightAlignedMisreads(cover: seq<byte>)
    requires |cover| == 5
    ensures EmbedPayloadIntoBytes(cover, ConvertPayloadToBits([255], Delimiter), 5).Ok?
    ensures ExtractPayloadFromBytes(
      EmbedPayloadIntoBytes(cover, ConvertPayloadToBits([255], Delimiter), 5).value, 5, Delimiter)
      == Ok(Some([31]))
  {
    var framed := ConvertPayloadToBits([255], Delimiter);
    FramedOnes();
    var stego := EmbedGroups(cover, framed, 5, RightAligned);
    MisreadStream(cover, framed);
    var bits := LsbStream(stego, 5);
    DelimiterShape();
    ForgedDelimiter(bits, Delimiter);
    FrontOnes(bits);
    ReadsForged(bits);
  }

  /** A stream whose first delimiter is at bit 5, after five ones, reads
      back as `[31]`. */
  lemma {:induction false} ReadsForged(bits: Bits)
    requires Find(bits, Delimiter) == Some(5) && |bits| >= 5 && bits[..5] == Ones(5)
    ensures ReadDelimited(bits, Delimiter) == Ok(Some([31]))
  {
    ReadAt(bits, Delimiter, 5);
    ChunkOfFive(bits);
  }

  lemma {:induction false} FrontOnes(bits: Bits)
    requires bits == Ones(20) + [false] + Ones(3) + [false]
    ensures |bits| >= 5 && bits[..5] == Ones(5)
  {
  }

  /** The framed bits of `[255]`: twenty-three ones and a zero. */
  lemma {:induction false} FramedOnes()
    ensures ConvertPayloadToBits([255], Delimiter) == Ones(23) + [false]
  {
    DelimiterShape();
    ValueOnes(8);
    BinOfValue(Ones(8));
    assert BytesToBits([255]) == Ones(8);
  }

  /** The stream the embedding leaves: each full group reads back as five
      ones, the short last group as `01110`. */
  lemma {:induction false} MisreadStream(cover: seq<byte>, framed: Bits)
    requires |cover| == 5 && framed == Ones(23) + [false]
    ensures LsbStream(EmbedGroups(cover, framed, 5, RightAligned), 5) == Ones(20) + [false] + Ones(3) + [false]
  {
    var bits := LsbStream(EmbedGroups(cover, framed, 5, RightAligned), 5);
    OnesGroups(framed);
    MisreadFull(cover, framed, 0);
    MisreadFull(cover, framed, 1);
    MisreadFull(cover, framed, 2);
    MisreadFull(cover, framed, 3);
    MisreadLast(cover, framed);
    FiveGroups(bits);
  }

  lemma {:induction false} FiveGroups(bits: Bits)
    requires |bits| == 25
    requires bits[0..5] == Ones(5) && bits[5..10] == Ones(5) && bits[10..15] == Ones(5) && bits[15..20] == Ones(5)
    requires bits[20..25] == [false] + Ones(3) + [false]
    ensures bits == Ones(20) + [false] + Ones(3) + [false]
  {
    forall j | 0 <= j < 25
      ensures bits[j] == (Ones(20) + [false] + Ones(3) + [false])[j]
    {
      if j < 5 { assert bits[j] == bits[0..5][j]; }
      else if j < 10 { assert bits[j] == bits[5..10][j - 5]; }
      else if j < 15 { assert bits[j] == bits[10..15][j - 10]; }
      else if j < 20 { assert bits[j] == bits[15..20][j - 15]; }
      else { assert bits[j] == bits[20..25][j - 20]; }
    }
  }

  lemma {:induction false} OnesGroups(framed: Bits)
    requires framed == Ones(23) + [false]
    ensures framed[0..5] == Ones(5) && framed[5..10] == Ones(5)
    ensures framed[10..15] == Ones(5) && framed[15..20] == Ones(5)
  {
  }

  lemma {:induction false} MisreadFull(cover: seq<byte>, framed: Bits, i: nat)
    requires |cover| == 5 && i < 5 && 5 * i + 5 <= |framed| && framed[5 * i..5 * i + 5] == Ones(5)
    ensures LsbStream(EmbedGroups(cover, framed, 5, RightAligned), 5)[5 * i..5 * i + 5] == Ones(5)
  {
    var s := 5 * i;
    assert Zeros(0) + framed[s..s + 5] == Ones(5);
    GroupReadsBack(cover, framed, 5, i, s);
  }

  lemma {:induction false} MisreadLast(cover: seq<byte>, framed: Bits)
    requires |cover| == 5 && framed == Ones(23) + [false]
    ensures LsbStream(EmbedGroups(cover, framed, 5, RightAligned), 5)[20..25] == [false] + Ones(3) + [false]
  {
    assert Zeros(1) + framed[20..24] == [false] + Ones(3) + [false] by {
      assert framed[20..24] == Ones(3) + [false];
    }
    GroupReadsBack(cover, framed, 5, 4, 20);
  }

  /** In that stream the first fifteen-ones-then-zero starts at offset 5. */
  lemma {:induction false} ForgedDelimiter(bits: Bits, delimiter: Bits)
    requires bits == Ones(20) + [false] + Ones(3) + [false]
    requires delimiter == Ones(15) + [false]
    ensures Find(bits, delimiter) == Some(5)
  {
    assert bits[5..21] == delimiter;
    forall m: nat | m < 5
      ensures !OccursAt(bits, delimiter, m)
    {
      assert bits[m..m + 16][15] != delimiter[15];
    }
    FindIs(bits, delimiter, 5);
  }

  lemma {:induction false} ChunkOfFive(bits: Bits)
    requires |bits| >= 5 && bits[..5] == Ones(5)
    ensures ChunkBytes(Zeros((8 - 5 % 8) % 8) + bits[..5]) == [31]
  {
    LeadingZeros(3, Ones(5));
    ValueOnes(5);
  }

  /** The same codec with a short final group zero-padded on the right, as
      `set_lsbs` and main.py write it. */
  function EmbedPayloadZeroPadded(cover: seq<byte>, bits: Bits, k: nat): (r: Result<seq<byte>>)
    requires 1 <= k <= 8
    ensures r.Raise? <==> |bits| > |cover| * k
    ensures r.Ok? ==> |r.value| == |cover|
  {
    if |bits| > |cover| * k then Raise(ValueError(TooLarge))
    else Ok(EmbedGroups(cover, bits, k, ZeroPadded))
  }

  /** With zero padding the round trip holds for every `k`. */
  lemma {:induction false} ZeroPaddedRoundTrip(cover: seq<byte>, payload: seq<byte>, k: nat)
    requires 1 <= k <= 8 && |payload| >= 1
    requires Absent(BytesToBits(payload), Delimiter)
    requires 8 * |payload| + 16 <= |cover| * k
    ensures EmbedPayloadZeroPadded(cover, ConvertPayloadToBits(payload, Delimiter), k).Ok?
    ensures ExtractPayloadFromBytes(
      EmbedPayloadZeroPadded(cover, ConvertPayloadToBits(payload, Delimiter), k).value, k, Delimiter)
      == Ok(Some(payload))
  {
    DelimiterShape();
    var framed := ConvertPayloadToBits(payload, Delimiter);
    EmbedStreamPrefix(cover, framed, k, ZeroPadded);
    ReadsBackPayload(EmbedGroups(cover, framed, k, ZeroPadded), k, payload);
  }

  /** With zero padding the empty payload reads back as `None` for every
      `k`. */
  lemma {:induction false} ZeroPaddedEmptyIsNone(cover: seq<byte>, k: nat)
    requires 1 <= k <= 8 && 16 <= |cover| * k
    ensures EmbedPayloadZeroPadded(cover, ConvertPayloadToBits([], Delimiter), k).Ok?
    ensures ExtractPayloadFromBytes(
      EmbedPayloadZeroPadded(cover, ConvertPayloadToBits([], Delimiter), k).value, k, Delimiter)
      == Ok(None)
  {
    DelimiterShape();
    var framed := ConvertPayloadToBits([], Delimiter);
    assert framed == framed[8 * 0..];
    EmbedStreamPrefix(cover, framed, k, ZeroPadded);
    assert OccursAt(LsbStream(EmbedGroups(cover, framed, k, ZeroPadded), k), Delimiter, 0);
  }
}
