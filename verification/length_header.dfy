/** main.py: the length-header codec of `embed_data_into_audio` /
    `extract_data_from_audio` and of their image twins.

    The payload is framed by its length as four big-endian bytes.  The
    embedding loop packs the next `num_lsb` framed bits into a number, most
    significant first (a short last group shifted up, that is zero-padded on
    the right), and stores it with `set_bits`.  Extraction reads 32 header
    bits, takes their value as the payload length `L`, and then runs a second
    loop that starts again at the first byte while its bit counter already
    stands at 32: it collects the first `8 * L` bits of the stream, which are
    the header and the front of the payload, not the payload.

    main.py calls `set_bits`, `get_bits`, `bytes_to_bits` and `bits_to_bytes`
    without defining them; the model takes them to be `Lsb.SetBits`,
    `Lsb.GetBits`, `Bits.BytesToBits` and `Bits.ChunkBytes`.  The audio
    frames and the image's pixels enter as the byte sequences that
    `wave.readframes` and `Image.load` yield, and the output files are the
    results. */
module LengthHeader {
  import opened Outcomes
  import opened Bits
  import opened Lsb
  import opened Groups

  /** The length header: four bytes of eight bits. */
  const HeaderBits: nat := 32

  const AudioTooLarge := "Payload too large to fit in the cover audio with the selected number of LSBs."
  const ImageTooLarge := "Payload too large to fit in the cover image with the selected number of LSBs."
  /** Python's message when `int.to_bytes` does not fit. */
  const IntTooBig := "int too big to convert"

  /** `bytes_to_bits(len(payload).to_bytes(4, 'big') + payload)`; `None`
      stands for the OverflowError of a payload of 2^32 bytes or more. */
  function FramedBits(payload: seq<byte>): (r: Option<Bits>)
    ensures r.Some? <==> |payload| < Pow2(32)
    ensures r.Some? ==> |r.value| == HeaderBits + 8 * |payload|
    ensures r.Some? ==> Value(r.value[..HeaderBits]) == |payload|
    ensures r.Some? ==> r.value[HeaderBits..] == BytesToBits(payload)
  {
    match ToBytes(|payload|, 4)
    case None => None
    case Some(header) =>
      BytesToBitsAppend(header, payload);
      FromBytesIsValue(header);
      Some(BytesToBits(header + payload))
  }

  // ---------------------------------------------------------------------------
  // Embedding
  // ---------------------------------------------------------------------------

  /** `embed_data_into_audio` on the frame bytes, with the error message of
      the caller (the image twin differs only in its message). */
  method EmbedData(frames: seq<byte>, payload: seq<byte>, k: nat, tooLarge: string) returns (r: Result<seq<byte>>)
    requires 1 <= k <= 8
    ensures r.Raise? && r.exception.OverflowError? <==> |payload| >= Pow2(32)
    ensures r == Raise(ValueError(tooLarge)) <==>
      |payload| < Pow2(32) && HeaderBits + 8 * |payload| > |frames| * k
    ensures r.Raise? ==> r.exception == OverflowError(IntTooBig) || r.exception == ValueError(tooLarge)
    ensures r.Ok? ==> r.value == EmbedGroups(frames, FramedBits(payload).value, k, ZeroPadded)
  {
    var framed := FramedBits(payload);
    if framed.None? {
      return Raise(OverflowError(IntTooBig));
    }
    var bits := framed.value;
    if |bits| > |frames| * k {
      return Raise(ValueError(tooLarge));
    }
    var out := EmbedLoop(frames, bits, k);
    return Ok(out);
  }

  /** The loop of main.py:300-311: while bits remain, the next byte gets the
      next `num_lsb` bits as a number, `data_bits = (data_bits << 1) | bit`
      and a plain shift once the bits run out; then the loop breaks.  It is
      the shared group-writing loop with `set_lsbs`'s zero padding. */
  method EmbedLoop(frames: seq<byte>, bits: Bits, k: nat) returns (out: seq<byte>)
    requires 1 <= k <= 8
    ensures out == EmbedGroups(frames, bits, k, ZeroPadded)
  {
    ZeroPaddedPacks(k);
    out := EmbedLoopWith(frames, bits, k, GroupWriter(k, ZeroPadded));
  }

  /** A writer that stores a group as `set_lsbs` does: zero-padded on the
      right under the kept high digits. */
  ghost predicate PadsGroups(write: Writer, k: nat)
    requires 1 <= k <= 8
  {
    forall v: byte, g: Bits :: 1 <= |g| <= k ==> write(v, g) == SetLsbs(v, k, g)
  }

  lemma {:induction false} ZeroPaddedPacks(k: nat)
    requires 1 <= k <= 8
    ensures PadsGroups(GroupWriter(k, ZeroPadded), k)
  {
    forall v: byte, g: Bits | 1 <= |g| <= k
      ensures GroupWriter(k, ZeroPadded)(v, g) == SetLsbs(v, k, g)
    {
      assert GroupWriter(k, ZeroPadded)(v, g) == WriteGroup(v, k, g, ZeroPadded);
    }
  }

  method EmbedLoopWith(frames: seq<byte>, bits: Bits, k: nat, ghost write: Writer) returns (out: seq<byte>)
    requires 1 <= k <= 8 && PadsGroups(write, k)
    ensures out == EmbedWith(frames, bits, k, write)
  {
    var written: seq<byte> := [];
    var idx := 0;
    var i := 0;
    while i < |frames| && idx < |bits|
      invariant 0 <= i <= |frames| && 0 <= idx <= |bits| && |written| == i
      invariant EmbedWith(frames, bits, k, write) == written + EmbedWith(frames[i..], bits[idx..], k, write)
      decreases |frames| - i
    {
      ghost var start := idx;
      var data;
      data, idx := PackGroup(bits, k, idx);
      LoopStep(frames, bits, k, write, written, i, start);
      var w := StoreGroup(frames[i], k, data, write, bits[start..idx]);
      written := written + [w];
      i := i + 1;
    }
    EmbedDone(frames, bits, k, write, i, idx);
    out := written + frames[i..];
  }

  /** `set_bits(v, data_bits, num_lsb)` for the packed group `g`. */
  method StoreGroup(v: byte, k: nat, data: nat, ghost write: Writer, ghost g: Bits) returns (r: byte)
    requires 1 <= k <= 8 && PadsGroups(write, k) && 1 <= |g| <= k && data == Value(g + Zeros(k - |g|))
    ensures r == write(v, g)
  {
    SetBitsOfGroup(v, k, g);
    r := SetBits(v, data, k);
  }

  /** The loop invariant survives one turn: byte `i` takes the group at `start`. */
  lemma {:induction false} LoopStep(frames: seq<byte>, bits: Bits, k: nat, write: Writer, written: seq<byte>, i: nat, start: nat)
    requires 1 <= k <= 8 && i < |frames| && start < |bits|
    requires EmbedWith(frames, bits, k, write) == written + EmbedWith(frames[i..], bits[start..], k, write)
    ensures var e := Min(start + k, |bits|);
      EmbedWith(frames, bits, k, write)
        == (written + [write(frames[i], bits[start..e])]) + EmbedWith(frames[i + 1..], bits[e..], k, write)
  {
    var e := Min(start + k, |bits|);
    var rest := bits[start..];
    assert rest[..e - start] == bits[start..e];
    assert rest[e - start..] == bits[e..];
    assert frames[i..][1..] == frames[i + 1..];
  }

  /** When the loop stops, the rest of the bytes are left alone. */
  lemma {:induction false} EmbedDone(frames: seq<byte>, bits: Bits, k: nat, write: Writer, i: nat, idx: nat)
    requires 1 <= k <= 8 && i <= |frames| && idx <= |bits|
    requires !(i < |frames| && idx < |bits|)
    ensures EmbedWith(frames[i..], bits[idx..], k, write) == frames[i..]
  {
  }

  /** The inner loop of main.py:303-308: the group of up to `num_lsb` bits
      from `start` as a number, shifted up by the missing digits. */
  method PackGroup(bits: Bits, k: nat, start: nat) returns (data: nat, idx: nat)
    requires 1 <= k <= 8 && start < |bits|
    ensures idx == Min(start + k, |bits|)
    ensures data == Value(bits[start..idx] + Zeros(k - (idx - start)))
  {
    ghost var group := bits[start..Min(start + k, |bits|)];
    ghost var padded := group + Zeros(k - |group|);
    idx := start;
    data := 0;
    var b := 0;
    while b < k
      invariant 0 <= b <= k
      invariant idx == Min(start + b, |bits|)
      invariant data == Value(padded[..b])
    {
      PaddedDigit(bits, k, start, b);
      ValueSnoc(padded[..b], padded[b]);
      assert padded[..b + 1] == padded[..b] + [padded[b]];
      if idx < |bits| {
        data := data * 2 + (if bits[idx] then 1 else 0);
        idx := idx + 1;
      } else {
        data := data * 2;
      }
      b := b + 1;
    }
    assert padded[..k] == padded;
  }

  /** Digit `b` of the padded group is payload bit `start + b`, or a zero
      once the payload has run out. */
  lemma {:induction false} PaddedDigit(bits: Bits, k: nat, start: nat, b: nat)
    requires start < |bits| && b < k
    ensures var group := bits[start..Min(start + k, |bits|)];
      var padded := group + Zeros(k - |group|);
      padded[b] == (start + b < |bits| && bits[start + b])
  {
  }

  lemma {:induction false} ValueSnoc(x: Bits, bit: bool)
    ensures Value(x + [bit]) == 2 * Value(x) + (if bit then 1 else 0)
  {
    assert (x + [bit])[..|x|] == x;
  }

  /** `set_bits` with the packed group is `set_lsbs` with the group. */
  lemma {:induction false} SetBitsOfGroup(v: byte, k: nat, group: Bits)
    requires 1 <= k <= 8 && |group| <= k
    ensures Value(group + Zeros(k - |group|)) < Pow2(k)
    ensures SetBits(v, Value(group + Zeros(k - |group|)), k) == SetLsbs(v, k, group)
  {
    var padded := group + Zeros(k - |group|);
    ValueBound(padded);
    BinOfValue(padded);
  }

  // ---------------------------------------------------------------------------
  // Extraction
  // ---------------------------------------------------------------------------

  /** Extraction as main.py writes it, on the stream of low bits: the header
      is the first 32 bits (fewer if the stream is shorter), `L` is their
      value as big-endian bytes, and the payload loop collects bits from the
      start of the stream until the shared counter reaches `32 + 8 * L`. */
  function ExtractData(frames: seq<byte>, k: nat): (r: seq<byte>)
    requires 1 <= k <= 8
    ensures var stream := LsbStream(frames, k);
      HeaderBits <= |stream| ==> r == ChunkBytes(stream[..Min(|stream|, 8 * Value(stream[..HeaderBits]))])
  {
    StreamRestarts(LsbStream(frames, k));
    ReadAsWritten(LsbStream(frames, k))
  }

  function ReadAsWritten(stream: Bits): (r: seq<byte>)
  {
    var header := stream[..Min(|stream|, HeaderBits)];
    var length := FromBytes(ChunkBytes(header));
    ChunkBytes(stream[..Min(|stream|, HeaderBits + 8 * length - |header|)])
  }

  /** `extract_data_from_audio` on the frame bytes: the two loops of
      main.py:329-354 and the packing. */
  method ExtractDataFromFrames(frames: seq<byte>, k: nat) returns (payload: seq<byte>)
    requires 1 <= k <= 8
    ensures payload == ExtractData(frames, k)
  {
    var header, idx := CollectBits(frames, k, 0, HeaderBits);
    var length := FromBytes(ChunkBytes(header));
    var bits, _ := CollectBits(frames, k, idx, HeaderBits + 8 * length);
    payload := ChunkBytes(bits);
  }

  /** One bit-collecting loop: visit the bytes from the first, take the low
      `num_lsb` bits of each, most significant first, as
      `(bits >> (num_lsb - b - 1)) & 1`, and stop as soon as the counter,
      which starts at `start`, reaches `limit`.  The header loop tests the
      counter after each bit and the payload loop before it; both stop at
      the same place. */
  method CollectBits(frames: seq<byte>, k: nat, start: nat, limit: nat) returns (bits: Bits, idx: nat)
    requires 1 <= k <= 8 && start <= limit
    ensures idx == start + |bits| && idx <= limit
    ensures bits == LsbStream(frames, k)[..Min(k * |frames|, limit - start)]
  {
    bits := [];
    idx := start;
    var i := 0;
    while i < |frames| && idx < limit
      invariant 0 <= i <= |frames|
      invariant idx == start + |bits| && idx <= limit
      invariant idx < limit ==> bits == LsbStream(frames[..i], k)
      invariant bits <= LsbStream(frames[..i], k)
      decreases |frames| - i
    {
      var group;
      ghost var idx0 := idx;
      group, idx := CollectGroup(frames[i], k, idx, limit);
      CollectStep(frames, k, i, bits, group, idx0, limit);
      bits := bits + group;
      i := i + 1;
    }
    CollectDone(frames, k, i, bits, limit - start);
  }

  /** One turn of the outer loop keeps the invariant. */
  lemma {:induction false} CollectStep(frames: seq<byte>, k: nat, i: nat, bits: Bits, group: Bits, idx0: nat, limit: nat)
    requires 1 <= k <= 8 && i < |frames| && idx0 < limit
    requires bits == LsbStream(frames[..i], k)
    requires group == GetLsbs(frames[i], k)[..Min(k, limit - idx0)]
    ensures idx0 + |group| < limit ==> bits + group == LsbStream(frames[..i + 1], k)
    ensures bits + group <= LsbStream(frames[..i + 1], k)
  {
    StreamSnoc(frames, k, i);
    if |group| == k {
      assert group == GetLsbs(frames[i], k);
    }
  }

  /** When the outer loop stops, the collected bits are the first `n` bits of
      the stream, or all of it when it is shorter. */
  lemma {:induction false} CollectDone(frames: seq<byte>, k: nat, i: nat, bits: Bits, n: nat)
    requires 1 <= k <= 8 && i <= |frames|
    requires i == |frames| || |bits| == n
    requires |bits| < n ==> bits == LsbStream(frames[..i], k)
    requires |bits| <= n && bits <= LsbStream(frames[..i], k)
    ensures bits == LsbStream(frames, k)[..Min(k * |frames|, n)]
  {
    StreamPrefixAt(frames, k, i);
    assert frames[..|frames|] == frames;
  }

  /** The inner loop over one byte: its low bits, most significant first,
      until the counter reaches `limit`. */
  method CollectGroup(v: byte, k: nat, idx0: nat, limit: nat) returns (group: Bits, idx: nat)
    requires 1 <= k <= 8 && idx0 < limit
    ensures idx == idx0 + |group| && idx <= limit
    ensures group == GetLsbs(v, k)[..Min(k, limit - idx0)]
  {
    var d := GetBits(v, k);
    group := [];
    idx := idx0;
    var b := 0;
    while b < k && idx < limit
      invariant 0 <= b <= k
      invariant idx == idx0 + b && idx <= limit
      invariant group == GetLsbs(v, k)[..b]
    {
      DigitOf(v, k, b);
      assert GetLsbs(v, k)[..b + 1] == GetLsbs(v, k)[..b] + [GetLsbs(v, k)[b]];
      group := group + [(d / Pow2(k - b - 1)) % 2 == 1];
      idx := idx + 1;
      b := b + 1;
    }
  }

  /** `(get_bits(v, k) >> (k - b - 1)) & 1` is digit `b` of the low bits. */
  lemma {:induction false} DigitOf(v: byte, k: nat, b: nat)
    requires 1 <= k <= 8 && b < k
    ensures ((GetBits(v, k) / Pow2(k - b - 1)) % 2 == 1) == GetLsbs(v, k)[b]
  {
    BinAt(GetBits(v, k), k, b);
  }

  lemma {:induction false} StreamSnoc(frames: seq<byte>, k: nat, i: nat)
    requires 1 <= k <= 8 && i < |frames|
    ensures LsbStream(frames[..i + 1], k) == LsbStream(frames[..i], k) + GetLsbs(frames[i], k)
  {
    assert frames[..i + 1] == frames[..i] + [frames[i]];
    LsbStreamAppend(frames[..i], [frames[i]], k);
    assert [frames[i]][1..] == [];
    assert LsbStream([frames[i]], k) == GetLsbs(frames[i], k) + LsbStream([], k);
  }

  // ---------------------------------------------------------------------------
  // What the extraction returns
  // ---------------------------------------------------------------------------

  /** With a full header, the payload loop returns the first `8 * L` bits of
      the stream packed into bytes, where `L` is the header's value: it
      starts over at the first byte instead of after the header. */
  lemma {:induction false} StreamRestarts(stream: Bits)
    ensures HeaderBits <= |stream| ==>
      ReadAsWritten(stream) == ChunkBytes(stream[..Min(|stream|, 8 * Value(stream[..HeaderBits]))])
  {
    if HeaderBits <= |stream| {
      HeaderValue(stream[..HeaderBits]);
    }
  }

  /** Four header bytes read back as the value of their 32 bits. */
  lemma {:induction false} HeaderValue(header: Bits)
    requires |header| == HeaderBits
    ensures FromBytes(ChunkBytes(header)) == Value(header)
  {
    FromBytesIsValue(ChunkBytes(header));
    BytesToBitsOfChunkBytes(header);
  }

  /** Round trip as written: an accepted embedding of `n` bytes extracts as
      the first `n` bytes of header and payload together. */
  lemma {:induction false} RoundTripAsWritten(frames: seq<byte>, payload: seq<byte>, k: nat)
    requires 1 <= k <= 8 && |payload| < Pow2(32)
    requires HeaderBits + 8 * |payload| <= |frames| * k
    ensures ExtractData(EmbedGroups(frames, FramedBits(payload).value, k, ZeroPadded), k)
      == (ToBytes(|payload|, 4).value + payload)[..|payload|]
  {
    var framed := FramedBits(payload).value;
    EmbedStreamPrefix(frames, framed, k, ZeroPadded);
    ReadsHeaderFront(EmbedGroups(frames, framed, k, ZeroPadded), k, payload);
  }

  /** A stream that starts with the framed payload extracts, as written, as
      the front of header and payload. */
  lemma {:induction false} ReadsHeaderFront(stego: seq<byte>, k: nat, payload: seq<byte>)
    requires 1 <= k <= 8 && |payload| < Pow2(32)
    requires var framed := FramedBits(payload).value;
      |framed| <= |LsbStream(stego, k)| && LsbStream(stego, k)[..|framed|] == framed
    ensures ExtractData(stego, k) == (ToBytes(|payload|, 4).value + payload)[..|payload|]
  {
    StreamHeaderFront(LsbStream(stego, k), payload);
  }

  lemma {:induction false} StreamHeaderFront(stream: Bits, payload: seq<byte>)
    requires |payload| < Pow2(32)
    requires var framed := FramedBits(payload).value;
      |framed| <= |stream| && stream[..|framed|] == framed
    ensures ReadAsWritten(stream) == (ToBytes(|payload|, 4).value + payload)[..|payload|]
  {
    PrefixSlices(stream, FramedBits(payload).value, |payload|);
    StreamRestarts(stream);
    FramedFront(payload);
  }

  /** The pieces of a stream that starts with a framed payload of `n` bytes. */
  lemma {:induction false} PrefixSlices(stream: Bits, framed: Bits, n: nat)
    requires |framed| == HeaderBits + 8 * n <= |stream| && stream[..|framed|] == framed
    ensures stream[..HeaderBits] == framed[..HeaderBits]
    ensures stream[..8 * n] == framed[..8 * n]
    ensures stream[HeaderBits..HeaderBits + 8 * n] == framed[HeaderBits..]
  {
    assert stream[..HeaderBits] == stream[..|framed|][..HeaderBits];
    assert stream[..8 * n] == stream[..|framed|][..8 * n];
    assert stream[HeaderBits..HeaderBits + 8 * n] == stream[..|framed|][HeaderBits..];
  }

  /** The first `8 * m` framed bits are the bits of the first `m` bytes of
      header and payload together. */
  lemma {:induction false} FramedFront(payload: seq<byte>)
    requires |payload| < Pow2(32)
    ensures var all := ToBytes(|payload|, 4).value + payload;
      ChunkBytes(FramedBits(payload).value[..8 * |payload|]) == all[..|payload|]
  {
    var all := ToBytes(|payload|, 4).value + payload;
    var n := |payload|;
    assert FramedBits(payload).value == BytesToBits(all);
    assert all == all[..n] + all[n..];
    BytesToBitsAppend(all[..n], all[n..]);
    assert BytesToBits(all)[..8 * n] == BytesToBits(all[..n]);
    ChunkBytesOfBytesToBits(all[..n]);
  }

  /** A payload of one to three bytes, such as "Hi", comes back as that
      many zero bytes, the front of its header `00 00 00 n`, for every cover
      that accepts it. */
  lemma {:induction false} ShortPayloadReadsAsZeros(frames: seq<byte>, payload: seq<byte>, k: nat)
    requires 1 <= k <= 8 && 1 <= |payload| <= 3
    requires HeaderBits + 8 * |payload| <= |frames| * k
    ensures FramedBits(payload).Some?
    ensures ExtractData(EmbedGroups(frames, FramedBits(payload).value, k, ZeroPadded), k) == seq(|payload|, _ => 0)
  {
    SmallHeader(|payload|);
    RoundTripAsWritten(frames, payload, k);
    FrontZeros(ToBytes(|payload|, 4).value, payload);
  }

  lemma {:induction false} FrontZeros(h: seq<byte>, payload: seq<byte>)
    requires 1 <= |payload| <= 3 && h == [0, 0, 0, |payload|]
    ensures (h + payload)[..|payload|] == seq(|payload|, _ => 0)
  {
  }

  /** `n.to_bytes(4, 'big')` is `00 00 00 n` for `n < 256`. */
  lemma {:induction false} SmallHeader(n: nat)
    requires n < 256
    ensures n < Pow2(32) && ToBytes(n, 4) == Some([0, 0, 0, n])
  {
    Pow2Byte();
    Pow2Add(8, 24);
    Pow2Add(8, 16);
    Pow2Add(8, 8);
    Pow2Add(24, 8);
    var h: seq<byte> := [0, 0, 0, n];
    assert h[..3][..2][..1][..0] == [];
    assert FromBytes(h[..3][..2][..1]) == 0;
    assert FromBytes(h[..3][..2]) == 0;
    assert FromBytes(h[..3]) == 0;
    assert FromBytes(h) == n;
    FromBytesInjective(ToBytes(n, 4).value, h);
  }

  /** Extraction as evidently intended: the payload loop goes on from bit 32
      instead of starting over, reading bits `32 .. 32 + 8 * L`. */
  function ExtractAfterHeader(frames: seq<byte>, k: nat): (r: seq<byte>)
    requires 1 <= k <= 8
    ensures var stream := LsbStream(frames, k);
      HeaderBits <= |stream| ==>
        r == ChunkBytes(stream[HeaderBits..Min(|stream|, HeaderBits + 8 * Value(stream[..HeaderBits]))])
  {
    ExtractAfterHeaderReads(LsbStream(frames, k));
    ReadAfterHeader(LsbStream(frames, k))
  }

  function ReadAfterHeader(stream: Bits): (r: seq<byte>)
  {
    var header := stream[..Min(|stream|, HeaderBits)];
    var length := FromBytes(ChunkBytes(header));
    ChunkBytes(stream[|header|..Min(|stream|, HeaderBits + 8 * length)])
  }

  /** With a full header, the corrected extraction reads the `8 * L` bits
      after it. */
  lemma {:induction false} ExtractAfterHeaderReads(stream: Bits)
    ensures HeaderBits <= |stream| ==>
      ReadAfterHeader(stream)
        == ChunkBytes(stream[HeaderBits..Min(|stream|, HeaderBits + 8 * Value(stream[..HeaderBits]))])
  {
    if HeaderBits <= |stream| {
      HeaderValue(stream[..HeaderBits]);
    }
  }

  /** Round trip of the corrected extraction: every accepted embedding
      returns the payload. */
  lemma {:induction false} RoundTrip(frames: seq<byte>, payload: seq<byte>, k: nat)
    requires 1 <= k <= 8 && |payload| < Pow2(32)
    requires HeaderBits + 8 * |payload| <= |frames| * k
    ensures ExtractAfterHeader(EmbedGroups(frames, FramedBits(payload).value, k, ZeroPadded), k) == payload
  {
    var framed := FramedBits(payload).value;
    EmbedStreamPrefix(frames, framed, k, ZeroPadded);
    ReadsPayload(EmbedGroups(frames, framed, k, ZeroPadded), k, payload);
  }

  /** A stream that starts with the framed payload extracts as the payload. */
  lemma {:induction false} ReadsPayload(stego: seq<byte>, k: nat, payload: seq<byte>)
    requires 1 <= k <= 8 && |payload| < Pow2(32)
    requires var framed := FramedBits(payload).value;
      |framed| <= |LsbStream(stego, k)| && LsbStream(stego, k)[..|framed|] == framed
    ensures ExtractAfterHeader(stego, k) == payload
  {
    FramedSlices(LsbStream(stego, k), payload);
    PayloadAfterHeader(LsbStream(stego, k), payload);
  }

  lemma {:induction false} PayloadAfterHeader(stream: Bits, payload: seq<byte>)
    requires HeaderBits + 8 * |payload| <= |stream|
    requires Value(stream[..HeaderBits]) == |payload|
    requires stream[HeaderBits..HeaderBits + 8 * |payload|] == BytesToBits(payload)
    ensures ReadAfterHeader(stream) == payload
  {
    ReadsLength(stream, |payload|);
    ChunkBytesOfBytesToBits(payload);
  }

  /** A stream that starts with a framed payload holds its length in the
      first 32 bits and its bytes right after them. */
  lemma {:induction false} FramedSlices(stream: Bits, payload: seq<byte>)
    requires |payload| < Pow2(32)
    requires var framed := FramedBits(payload).value;
      |framed| <= |stream| && stream[..|framed|] == framed
    ensures HeaderBits + 8 * |payload| <= |stream|
    ensures Value(stream[..HeaderBits]) == |payload|
    ensures stream[HeaderBits..HeaderBits + 8 * |payload|] == BytesToBits(payload)
  {
    PrefixSlices(stream, FramedBits(payload).value, |payload|);
  }

  /** A header of value `n` followed by at least `8 * n` bits: the corrected
      extraction returns exactly those bits as bytes. */
  lemma {:induction false} ReadsLength(stream: Bits, n: nat)
    requires HeaderBits + 8 * n <= |stream| && Value(stream[..HeaderBits]) == n
    ensures ReadAfterHeader(stream) == ChunkBytes(stream[HeaderBits..HeaderBits + 8 * n])
  {
    ExtractAfterHeaderReads(stream);
  }

  // ---------------------------------------------------------------------------
  // The image twins (main.py:175-276)
  // ---------------------------------------------------------------------------

  /** The channels of the pixels in the order the image loops visit them. */
  function Flatten(pixels: seq<seq<byte>>): (r: seq<byte>)
  {
    if |pixels| == 0 then [] else pixels[0] + Flatten(pixels[1..])
  }

  /** The row-major index of channel `j` of pixel `i` with `c` channels per
      pixel. */
  function RowMajor(i: nat, j: nat, c: nat): nat
  {
    i * c + j
  }

  /** The loops visit the pixels row by row (`for y ... for x ...`) and each
      pixel's channels in order: with `c` channels per pixel, channel `j` of
      pixel `i` is the `RowMajor(i, j, c)`-th channel visited. */
  lemma {:induction false} FlattenAt(pixels: seq<seq<byte>>, c: nat)
    requires forall i :: 0 <= i < |pixels| ==> |pixels[i]| == c
    ensures |Flatten(pixels)| == c * |pixels|
    ensures forall i: nat, j: nat :: i < |pixels| && j < c ==>
      RowMajor(i, j, c) < |Flatten(pixels)| && Flatten(pixels)[RowMajor(i, j, c)] == pixels[i][j]
  {
    FlattenLength(pixels, c);
    forall i: nat, j: nat | i < |pixels| && j < c
      ensures RowMajor(i, j, c) < |Flatten(pixels)| && Flatten(pixels)[RowMajor(i, j, c)] == pixels[i][j]
    {
      FlattenCell(pixels, c, i, j);
    }
  }

  lemma {:induction false} FlattenLength(pixels: seq<seq<byte>>, c: nat)
    requires forall i :: 0 <= i < |pixels| ==> |pixels[i]| == c
    ensures |Flatten(pixels)| == c * |pixels|
  {
    if |pixels| > 0 {
      FlattenLength(pixels[1..], c);
      assert c * |pixels| == c + c * |pixels[1..]|;
    }
  }

  lemma {:induction false} FlattenCell(pixels: seq<seq<byte>>, c: nat, i: nat, j: nat)
    requires forall i :: 0 <= i < |pixels| ==> |pixels[i]| == c
    requires i < |pixels| && j < c
    ensures i * c + j < |Flatten(pixels)| && Flatten(pixels)[i * c + j] == pixels[i][j]
  {
    var rest := pixels[1..];
    assert Flatten(pixels) == pixels[0] + Flatten(rest);
    if i > 0 {
      FlattenCell(rest, c, i - 1, j);
      NextRow(i - 1, j, c);
      assert rest[i - 1] == pixels[i];
    }
  }

  /** Index arithmetic of the next row. */
  lemma {:induction false} NextRow(i: nat, j: nat, c: nat)
    ensures (i + 1) * c + j == c + (i * c + j)
  {
  }

  /** Cut a flat channel sequence back into pixels shaped like `like`. */
  function Reshape(flat: seq<byte>, like: seq<seq<byte>>): (r: seq<seq<byte>>)
    requires |flat| == |Flatten(like)|
    ensures |r| == |like| && forall i :: 0 <= i < |like| ==> |r[i]| == |like[i]|
    ensures Flatten(r) == flat
    decreases |like|
  {
    if |like| == 0 then []
    else
      var n := |like[0]|;
      var rest := Reshape(flat[n..], like[1..]);
      assert flat == flat[..n] + flat[n..];
      assert ([flat[..n]] + rest)[1..] == rest;
      [flat[..n]] + rest
  }

  /** `embed_into_image` of main.py: the audio embedding over the channels
      in visiting order, written back into pixels of the same shape. */
  method EmbedDataIntoImage(pixels: seq<seq<byte>>, payload: seq<byte>, k: nat) returns (r: Result<seq<seq<byte>>>)
    requires 1 <= k <= 8
    ensures r.Raise? && r.exception.OverflowError? <==> |payload| >= Pow2(32)
    ensures r == Raise(ValueError(ImageTooLarge)) <==>
      |payload| < Pow2(32) && HeaderBits + 8 * |payload| > |Flatten(pixels)| * k
    ensures r.Ok? ==> |r.value| == |pixels| && forall i :: 0 <= i < |pixels| ==> |r.value[i]| == |pixels[i]|
    ensures r.Ok? ==> Flatten(r.value) == EmbedGroups(Flatten(pixels), FramedBits(payload).value, k, ZeroPadded)
  {
    var flat := EmbedData(Flatten(pixels), payload, k, ImageTooLarge);
    match flat
    case Raise(e) => return Raise(e);
    case Ok(out) => return Ok(Reshape(out, pixels));
  }

  /** `extract_data_from_image`: the audio extraction over the channels. */
  method ExtractDataFromImage(pixels: seq<seq<byte>>, k: nat) returns (payload: seq<byte>)
    requires 1 <= k <= 8
    ensures payload == ExtractData(Flatten(pixels), k)
  {
    payload := ExtractDataFromFrames(Flatten(pixels), k);
  }
}
