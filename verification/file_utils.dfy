/** common/file_utils.py: the framed bit string of a payload.  Reading the
    payload file is I/O; the model starts from the bytes it yields. */
module FileUtils {
  import opened Bits

  /** `convert_payload_to_bits`: eight MSB-first digits per payload byte,
      then the delimiter (by default the canonical `Delimiter`, the same
      literal the extractor of common/bit_manipulation.py defaults to). */
  function ConvertPayloadToBits(payload: seq<byte>, delimiter: Bits): (r: Bits)
    ensures |r| == 8 * |payload| + |delimiter|
    ensures r[8 * |payload|..] == delimiter
    ensures ChunkBytes(r[..8 * |payload|]) == payload
  {
    var body := BytesToBits(payload);
    assert (body + delimiter)[..8 * |payload|] == body;
    ChunkBytesOfBytesToBits(payload);
    body + delimiter
  }

  /** Each payload byte occupies its own eight digits, most significant first. */
  lemma {:induction false} PayloadByteAt(payload: seq<byte>, delimiter: Bits, i: nat)
    requires i < |payload|
    ensures ConvertPayloadToBits(payload, delimiter)[8 * i..8 * i + 8] == Bin(payload[i], 8)
    ensures Value(ConvertPayloadToBits(payload, delimiter)[8 * i..8 * i + 8]) == payload[i]
  {
    var body := BytesToBits(payload);
    BytesToBitsAt(payload, i);
    assert (body + delimiter)[8 * i..8 * i + 8] == body[8 * i..8 * i + 8];
  }
}
