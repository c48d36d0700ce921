/** media_handlers/video_steganography/metadata_handler.py: a file carried as
    a '0'/'1' string in an MP4 metadata tag.  Reading the uploaded file, the
    mutagen tag store and writing the output file are I/O; the model keeps
    the conversions between the file's bytes and the stored digits, and
    models the tag store as a map from category to the list of values
    stored under it. */
module Metadata {
  import opened Outcomes
  import opened Bits

  /** `file_to_bits`: eight MSB-first digits per byte of the file. */
  function FileToBits(content: seq<byte>): (r: Bits)
    ensures |r| == 8 * |content|
    ensures ChunkBytes(r) == content
  {
    ChunkBytesOfBytesToBits(content);
    BytesToBits(content)
  }

  /** Byte `i` of the file is spelled out by digits `8i .. 8i+8`. */
  lemma {:induction false} FileToBitsAt(content: seq<byte>, i: nat)
    requires i < |content|
    ensures FileToBits(content)[8 * i..8 * i + 8] == Bin(content[i], 8)
    ensures Value(FileToBits(content)[8 * i..8 * i + 8]) == content[i]
  {
    BytesToBitsAt(content, i);
  }

  /** `bits_to_file` without the write: eight-digit chunks from index 0, one
      byte per chunk, a short last chunk taken at its own value. */
  function BitsToFile(bitStream: Bits): (r: seq<byte>)
    ensures |r| == (|bitStream| + 7) / 8
    ensures |bitStream| % 8 == 0 ==> FileToBits(r) == bitStream
  {
    WholeChunksSpellBack(bitStream);
    ChunkBytes(bitStream)
  }

  lemma {:induction false} WholeChunksSpellBack(bitStream: Bits)
    ensures |bitStream| % 8 == 0 ==> BytesToBits(ChunkBytes(bitStream)) == bitStream
  {
    if |bitStream| % 8 == 0 {
      BytesToBitsOfChunkBytes(bitStream);
    }
  }

  /** Each output byte is the value of its chunk, the last one possibly
      shorter than eight digits. */
  lemma {:induction false} BitsToFileAt(bitStream: Bits, i: nat)
    requires i < (|bitStream| + 7) / 8
    ensures BitsToFile(bitStream)[i] == Value(bitStream[8 * i..Min(8 * i + 8, |bitStream|)])
  {
    ChunkBytesAt(bitStream, i);
  }

  /** A trailing chunk such as '101' is read as 5, not as '10100000'. */
  lemma {:induction false} ShortChunkOwnValue(front: Bits, last: Bits)
    requires |front| % 8 == 0 && 1 <= |last| < 8
    ensures BitsToFile(front + last) == BitsToFile(front) + [Value(last)]
    ensures Value(last) < Pow2(|last|)
  {
    ChunkBytesAppend(front, last);
    ValueBound(last);
  }

  /** Unpacking what `file_to_bits` produced gives the file back. */
  lemma {:induction false} RoundTrip(content: seq<byte>)
    ensures BitsToFile(FileToBits(content)) == content
  {
  }

  /** The MP4 tags of a video: category to the list of stored values. */
  type Tags = map<string, seq<Bits>>

  const IndexOutOfRange: string := "list index out of range"

  /** `save_zip_from_metadata` without the file write: `None` (after the
      "No metadata found" message) when the category is absent; otherwise
      the first stored value is unpacked with the same chunking as
      `bits_to_file`; an empty value list fails on `[0]`. */
  function SaveZipFromMetadata(tags: Tags, category: string): (r: Result<Option<seq<byte>>>)
    ensures category !in tags ==> r == Ok(None)
    ensures category in tags && |tags[category]| == 0 ==> r == Raise(IndexError(IndexOutOfRange))
    ensures category in tags && |tags[category]| > 0 ==>
      r.Ok? && r.value.Some? && |r.value.value| == (|tags[category][0]| + 7) / 8
    ensures category in tags && |tags[category]| > 0 ==> r == Ok(Some(BitsToFile(tags[category][0])))
  {
    if category !in tags then Ok(None)
    else if |tags[category]| == 0 then Raise(IndexError(IndexOutOfRange))
    else Ok(Some(BitsToFile(tags[category][0])))
  }

  /** A file stored under a category with `file_to_bits` is what
      `save_zip_from_metadata` writes out again. */
  lemma {:induction false} SaveZipRoundTrip(tags: Tags, category: string, content: seq<byte>)
    requires category in tags && |tags[category]| > 0
    requires tags[category][0] == FileToBits(content)
    ensures SaveZipFromMetadata(tags, category) == Ok(Some(content))
  {
    RoundTrip(content);
  }
}
