# LSB steganography codecs, modelled in Dafny

The repository is a small desktop tool. It hides a payload file in the least
significant bits (LSBs) of an image, an audio stream or a video's metadata,
and reads it back. Its core is a handful of bit-level codecs. Each is written
several times over, with small differences:

| codec | where | framing | how a short last group is stored | how extraction stops |
|---|---|---|---|---|
| byte codec | `common/bit_manipulation.py`, `common/file_utils.py` | payload bits + 16-bit delimiter | right-aligned | first occurrence of the delimiter |
| image codec | `steganography_utils.py` | payload bits + the first `k` delimiter digits | zero-padded | first occurrence of the truncated delimiter |
| image codec (GUI copy) | `tempCodeRunnerFile.py` | payload bits + 16-bit delimiter | zero-padded | delimiter tested after each whole channel |
| length-header codec | `main.py` (audio, and the image twin) | 4-byte big-endian length + payload bits | zero-padded | reads a count of bits given by the header |
| metadata codec | `media_handlers/video_steganography/metadata_handler.py` | a '0'/'1' string in an MP4 tag | — | — |
| text codec | `test/test.py` | text + `"#####"`, 6 LSBs per channel | appended after the high digits | 40-digit mark tested after each pixel |

The model works on bits (`seq<bool>`) and bytes (`int` in 0..255). A cover
(an image's channels in row-major order, or audio frames) is a sequence of
bytes. Python exceptions are the `Raise` case of a `Result`. Functions that
answer `None` return an `Option`.

The modules follow the source:

- `Bits`: digit strings, `format(n, '0wb')`, `int(s, 2)`, `int.to_bytes`, `int.from_bytes`, the chunking into bytes, `str.find`.
- `Lsb`: the LSB operations on one byte.
- `Groups`: the shared group-by-group embedding loop. It takes three fills, one per way a short last group is stored. It also defines the stream of low digits an extractor reads.
- `FileUtils`, `BitManipulation`, `StegoUtils`, `TempCodeRunner`, `Capacity`, `LengthHeader`, `Metadata`, `TestCodec`: one per core source file or codec.

Every codec gets a round-trip lemma. Where the code as written cannot
round-trip, the model adds a lemma that exhibits the failing input, then a
corrected definition whose round trip is proved (see "## Findings").

## Model

| member | source | states |
|---|---|---|
| Bits.ParseBits | common/bit_manipulation.py:23 | a '0'/'1' literal read as bits: same length, and bit `i` is set exactly when character `i` is '1' |
| Bits.DelimiterShape | common/bit_manipulation.py:23 | the default delimiter `1111111111111110` is fifteen ones and a final zero, 16 digits |
| Bits.ValueBound | common/bit_manipulation.py:43 | `int(s, 2)` of an `n`-digit string is below `2^n` |
| Bits.Bin | common/bit_manipulation.py:28 | `format(n, '0wb')` has exactly `w` digits when `n < 2^w` |
| Bits.BinWide | common/bit_manipulation.py:28 | `format` never truncates: at least `w` digits, and for `n >= 2^w` more than `w` digits led by a one |
| Bits.ValueOfBin | common/bit_manipulation.py:28 | `int(format(n, '0wb'), 2) == n` for every `n` and width `w`, including numbers wider than `w` |
| Bits.BinOfValue | common/bit_manipulation.py:16 | formatting the value of a `w`-digit string to width `w` gives the string back |
| Bits.ValueInjective | common/bit_manipulation.py:16 | two digit strings of equal length with the same `int(·, 2)` are equal |
| Bits.LeadingZeros | common/bit_manipulation.py:43 | leading zero digits do not change `int(·, 2)` |
| Bits.BytesToBits | common/file_utils.py:6 | `format(b, '08b')` joined over the bytes: eight digits per byte |
| Bits.BytesToBitsAt | common/file_utils.py:6 | digits `8i..8i+8` are byte `i`'s eight digits and read back as byte `i` |
| Bits.BytesToBitsAppend | common/file_utils.py:6 | the digits of a concatenation are the concatenated digits |
| Bits.ChunkBytes | media_handlers/video_steganography/metadata_handler.py:10-11 | chunking into eight digits from index 0 gives `ceil(len / 8)` bytes |
| Bits.ChunkBytesAt | media_handlers/video_steganography/metadata_handler.py:10-11 | byte `i` is the value of chunk `i`; a short last chunk is read at its own value |
| Bits.ChunkBytesAppend | media_handlers/video_steganography/metadata_handler.py:10 | after a whole number of bytes, the chunks of a concatenation split in two |
| Bits.ChunkBytesOfBytesToBits | media_handlers/video_steganography/metadata_handler.py:10-11 | chunking the eight-digit spelling of a byte string gives the bytes back |
| Bits.BytesToBitsOfChunkBytes | media_handlers/video_steganography/metadata_handler.py:10-11 | for a whole number of bytes, spelling out the chunks gives the digits back |
| Bits.FromBytes | main.py:341 | `int.from_bytes(bs, 'big')` of `n` bytes is below `256^n` |
| Bits.FromBytesIsValue | main.py:341 | `int.from_bytes(bs, 'big')` is the value of the bytes' digits |
| Bits.FromBytesInjective | main.py:341 | equal-length byte strings with the same big-endian value are equal |
| Bits.ToBytes | common/bit_manipulation.py:43 | `v.to_bytes(n, 'big')` succeeds exactly when `v < 256^n`; its `n` bytes read back as `v` |
| Bits.ToBytesOfBits | tempCodeRunnerFile.py:406 | for a whole number of bytes, `int(s, 2).to_bytes(len // 8)` fits and gives the eight-digit chunks |
| Bits.ToBytesFloor | steganography_utils.py:104 | packing into `len // 8` bytes fits exactly when the leading `len % 8` digits are zero; then the bytes are the remaining chunks |
| Bits.ToBytesCeil | common/bit_manipulation.py:43 | packing into `(len + 7) // 8` bytes always fits; the bytes are the digits left-padded with zeros to whole bytes |
| Bits.Find | common/bit_manipulation.py:34 | `str.find`: an index where the pattern occurs with no occurrence before it, or `None` (the source's `-1`) exactly when it occurs nowhere |
| Bits.FindFrom | common/bit_manipulation.py:34 | `find` from index `i`: the first occurrence at or after `i` and none earlier, or `None` exactly when there is none |
| Bits.FindExtend | common/bit_manipulation.py:34 | appending bits does not move an existing first occurrence |
| Bits.FindAfterPayload | common/bit_manipulation.py:34-40 | a marker after a payload is found right after the payload when no occurrence starts earlier |
| Bits.DelimiterNotStraddling | common/bit_manipulation.py:23 | a payload without the delimiter, followed by the delimiter's first 15 digits, still does not contain it: no occurrence can straddle the boundary |
| Bits.FindDelimiterAfter | common/bit_manipulation.py:34-40 | in payload + delimiter + anything, the delimiter is first found at the payload's length |
| Bits.EndsWith | tempCodeRunnerFile.py:402 | `str.endswith`: true exactly when the pattern fits and its digits are the last digits of the string |
| Lsb.Octet | steganography_utils.py:173 | `format(v, '08b')`: eight digits whose value is `v` |
| Lsb.OctetOfValue | steganography_utils.py:175 | an eight-digit string, read and formatted again, is unchanged |
| Lsb.HighBits | steganography_utils.py:174 | `format(v, '08b')[:-k]`: `8 - k` digits whose value is `v // 2^k` |
| Lsb.GetLsbs | steganography_utils.py:177-180 | `format(v, '08b')[-k:]`: `k` digits whose value is `v % 2^k` |
| Lsb.Replace | common/bit_manipulation.py:16 | writing a full group keeps the high digits and makes the low digits the group |
| Lsb.ReplaceUnique | common/bit_manipulation.py:16 | exactly one byte has the given high digits and the given low group |
| Lsb.ReplaceSame | common/bit_manipulation.py:16 | writing back a byte's own low digits leaves it unchanged |
| Lsb.ReplaceArith | common/bit_manipulation.py:16 | the written byte is `(v // 2^k) * 2^k + int(group, 2)` |
| Lsb.SetLsbs | steganography_utils.py:170-175 | `set_lsbs`: high digits kept; low digits are the group left-justified with '0' to `k` digits |
| Lsb.SetLsbsArith | steganography_utils.py:172-175 | the same as arithmetic: high part kept, low part `int(bits, 2) * 2^(k - len(bits))` |
| Lsb.GetBits | main.py:333 | `get_bits`: a number below `2^k` whose `k` digits are the byte's low digits |
| Lsb.SetBits | main.py:309 | `set_bits`: high digits kept, and `get_bits` of the result is the stored number |
| Lsb.BitsArith | main.py:309 | `get_bits(v) == v % 2^k`; `set_bits` keeps `v // 2^k` and stores `d` as `v % 2^k` |
| Lsb.BitAnd | common/bit_manipulation.py:16 | bitwise and on bytes is digit-wise and |
| Lsb.BitOr | common/bit_manipulation.py:16 | bitwise or on bytes is digit-wise or |
| Lsb.BitXor | common/bit_manipulation.py:13 | `^` on bytes is digit-wise exclusive or |
| Lsb.ValueOnes | common/bit_manipulation.py:13 | `(1 << k) - 1` is `k` ones |
| Lsb.Mask | common/bit_manipulation.py:13 | `255 ^ ((1 << k) - 1)` has `8 - k` ones then `k` zeros |
| Lsb.MaskedOr | common/bit_manipulation.py:16 | the masked byte or-ed with `int(group, 2)`: high digits kept, the group right-aligned in the low digits |
| Lsb.MaskedOrOctet | common/bit_manipulation.py:16 | the digits of that expression are the high digits, then zeros, then the group |
| Lsb.HighThenGroup | test/test.py:41 | `int(r[:-6] + slice, 2)`: the digits are zeros, then the two high digits, then the slice; a short slice shifts the high digits into the low part |
| Groups.WriteGroup | common/bit_manipulation.py:16 | the three ways a group is stored: right-aligned (this line), zero-padded (`set_lsbs`, steganography_utils.py:175) and appended (test/test.py:41); the first two keep the high digits and leave the group padded on the right or on the left, the third puts zeros, the high digits, then the group |
| Groups.WriteFullGroup | steganography_utils.py:65 | all three ways agree on a full group of `k` digits |
| Groups.EmbedWith | common/bit_manipulation.py:10-19 | the embedding loop keeps the cover's length |
| Groups.EmbedGroups | common/bit_manipulation.py:10-19 | the embedding loop, with one of the three group stores, keeps the cover's length |
| Groups.EmbedGroupsAt | common/bit_manipulation.py:10-19 | byte `i` stores the bits `ik .. min(ik + k, len)`, or is left as it was once the bits run out |
| Groups.EmbedWithAt | common/bit_manipulation.py:10-19 | the same for any group writer |
| Groups.EmbedWithBeyondCapacity | steganography_utils.py:58-71 | bits beyond `len(cover) * k` are never written |
| Groups.EmbedKeepsHigh | common/bit_manipulation.py:13-16 | with right-aligned or zero-padded groups, every byte keeps its high `8 - k` digits |
| Groups.EmbedWithKeepsHigh | common/bit_manipulation.py:13-16 | the same for any writer that keeps high digits |
| Groups.LsbStream | common/bit_manipulation.py:27-29 | the extractor's stream: the low `k` digits of each byte in turn, `k` per byte |
| Groups.LsbStreamAppend | common/bit_manipulation.py:27-29 | the stream of a concatenation is the concatenated streams |
| Groups.StreamPrefixAt | tempCodeRunnerFile.py:396-400 | after `j` bytes the loop has collected the first `j * k` stream bits |
| Groups.LsbStreamAt | common/bit_manipulation.py:28 | stream bits `ik .. ik + k` are byte `i`'s low digits |
| Groups.EmbedWithStreamHead | common/bit_manipulation.py:10-29 | the stream of an embedding starts with the first written byte's low digits |
| Groups.GroupReadsBack | common/bit_manipulation.py:16 | a right-aligned group reads back as zeros followed by the group, so a short last group is misread |
| Groups.AlignedGroupAt | common/bit_manipulation.py:16 | the same for any writer that right-aligns |
| Groups.EmbedStreamPrefix | steganography_utils.py:58-71 | the embedded cover's stream starts with the embedded bits, for zero-padded groups or when `k` divides the bit count |
| Groups.EmbedWithStreamPrefix | steganography_utils.py:58-71 | the same for any writer that keeps full groups, and short groups where needed |
| FileUtils.ConvertPayloadToBits | common/file_utils.py:1-7 | `8n + len(delimiter)` digits; the delimiter at the end; the front chunks back to the payload |
| FileUtils.PayloadByteAt | common/file_utils.py:6 | payload byte `i` is spelled by digits `8i..8i+8` |
| BitManipulation.EmbedPayloadIntoBytes | common/bit_manipulation.py:1-21 | raises the ValueError exactly when there are more bits than `len(cover) * k`; otherwise the length is kept |
| BitManipulation.EmbedPayloadAt | common/bit_manipulation.py:10-19 | byte `i` keeps its high digits; its low digits are the zeros-then-group of its slice, or it is untouched beyond the bits |
| BitManipulation.ExtractPayloadFromBytes | common/bit_manipulation.py:23-48 | ValueError exactly when the delimiter is absent from the stream; `None` (the caught `int('')` error) exactly when it starts at bit 0 |
| BitManipulation.ReadDelimited | common/bit_manipulation.py:34-48 | the same split of cases over any stream of bits |
| BitManipulation.PackHead | common/bit_manipulation.py:42-48 | `None` exactly for the empty head; the only possible exception is the OverflowError; there are `(len + 7) // 8` bytes |
| BitManipulation.PackHeadFits | common/bit_manipulation.py:43 | packing a non-empty head never overflows and gives its zero-left-padded chunks |
| BitManipulation.ExtractNeverOverflows | common/bit_manipulation.py:42-48 | the only exception that escapes is the missing-delimiter ValueError; a found head becomes its zero-left-padded bytes |
| BitManipulation.ReadNeverOverflows | common/bit_manipulation.py:42-48 | the same over any stream |
| BitManipulation.ExtractAt | common/bit_manipulation.py:34-43 | with the first delimiter at `p > 0`, the result is the first `p` bits, zero-padded on the left to whole bytes |
| BitManipulation.ReadAt | common/bit_manipulation.py:34-43 | the same over any stream |
| BitManipulation.RoundTrip | common/bit_manipulation.py:1-48 | a non-empty payload without the delimiter in its bits, with `k` dividing the framed length, extracts as exactly the payload |
| BitManipulation.EmptyPayloadIsNone | common/bit_manipulation.py:23-48 | an empty payload, with `k` dividing the 16 delimiter bits, is embedded and extracts as `None` |
| BitManipulation.ReadsBackPayload | common/bit_manipulation.py:23-48 | any cover whose stream starts with the framed payload extracts as the payload |
| BitManipulation.StreamReadsBack | common/bit_manipulation.py:34-48 | the same for any stream |
| BitManipulation.PayloadThenDelimiter | common/bit_manipulation.py:34-40 | in such a stream the delimiter is first found right after the payload bits |
| BitManipulation.EarlyDelimiterTruncates | common/bit_manipulation.py:34-40 | a payload whose bits contain the delimiter at `p` extracts as only its first `p` bits |
| BitManipulation.RightAlignedMisreads | common/bit_manipulation.py:16 | finding A: payload `[255]` with `k = 5` in five bytes extracts as `[31]` |
| BitManipulation.MisreadStream | common/bit_manipulation.py:16 | for that input the stream read back is twenty ones, a zero, three ones and a zero |
| BitManipulation.ForgedDelimiter | common/bit_manipulation.py:34 | in that stream the delimiter is first found at bit 5 |
| BitManipulation.EmbedPayloadZeroPadded | common/bit_manipulation.py:1-21 | the corrected embedding, with short groups zero-padded: same ValueError condition, length kept |
| BitManipulation.ZeroPaddedRoundTrip | common/bit_manipulation.py:1-48 | with the corrected embedding, the round trip holds for every `k` in 1..8 |
| BitManipulation.ZeroPaddedEmptyIsNone | common/bit_manipulation.py:23-48 | with the corrected embedding an empty payload extracts as `None` for every `k` |
| Capacity.CheckCapacity | main.py:153-174 | `check_capacity` accepts exactly when `8 * size <= width * height * channels * k` |
| Capacity.FloorBytes | main.py:159 | comparing with `bits // 8` is the same as comparing `8 * size` with `bits` |
| StegoUtils.Repeat | steganography_utils.py:46 | repeating a string `n` times: length `len * n`, and it starts with the string |
| StegoUtils.PaddedDelimiter | steganography_utils.py:46 | the padded delimiter for `k <= 8` is the first `k` delimiter digits, which are `k` ones |
| StegoUtils.EmbedIntoImage | steganography_utils.py:30-76 | refused exactly when the payload bits alone exceed `channels * k`; otherwise the image size is kept |
| StegoUtils.EmbedIntoImageAt | steganography_utils.py:58-71 | channel `i` keeps its high digits and holds its framed slice, zero-padded on the right |
| StegoUtils.EmbedIntoImageOverflow | steganography_utils.py:54-71 | when only the terminator does not fit, the framed bits are cut at capacity |
| StegoUtils.PackBits | steganography_utils.py:104 | packing succeeds exactly when the head is non-empty and its leading `len % 8` digits are zero; the bytes are the remaining chunks |
| StegoUtils.ExtractWith | steganography_utils.py:79-111 | `None` when the terminator is absent or starts at bit 0; at its first occurrence `p`, some bytes exactly when `p > 0` and the leading `p % 8` bits are zeros, and then the chunks of the remaining bits before it |
| StegoUtils.ExtractFromImage | steganography_utils.py:79-111 | the same case split for the terminator of `k` ones: `None` when it never occurs or starts at bit 0, otherwise the packed bits before its first occurrence exactly when they pack |
| StegoUtils.ReadsBack | steganography_utils.py:87-107 | a stream starting with payload + terminator, with no earlier terminator, extracts as the payload |
| StegoUtils.FirstMarker | steganography_utils.py:97 | in such a stream the terminator is first found right after the payload |
| StegoUtils.PackWhole | steganography_utils.py:104 | whole bytes of payload bits pack back to the payload |
| StegoUtils.RoundTrip | steganography_utils.py:30-111 | a payload with no `k` ones in its bits (even across the terminator) round-trips |
| StegoUtils.OneLsbLosesPayload | steganography_utils.py:46 | finding B1: `'A'` with `k = 1` extracts as empty bytes |
| StegoUtils.GuardDropsDelimiter | steganography_utils.py:54 | finding B2: byte 0 with `k = 1` in eight channels is accepted, and extraction finds nothing |
| TempCodeRunner.EmbedIntoImage | tempCodeRunnerFile.py:169-213 | refused exactly when payload + delimiter exceed `channels * k`; otherwise the size is kept |
| TempCodeRunner.EmbedIntoImageAt | tempCodeRunnerFile.py:195-208 | channel `i` keeps its high digits and holds its framed slice, zero-padded on the right |
| TempCodeRunner.ScanFrom | tempCodeRunnerFile.py:396-412 | the extraction loop from collected bits `acc`: when no later channel boundary ends with the delimiter, the answer is `None` |
| TempCodeRunner.Unframe | tempCodeRunnerFile.py:404-406 | `bits[:-16]` packed: some bytes exactly when bits are left and their leading `len % 8` are zeros, and then the remaining whole bytes |
| TempCodeRunner.ExtractFromImage | tempCodeRunnerFile.py:387-415 | the first channel boundary where the collected bits end with the delimiter decides the answer, `bits[:-16]` packed; `None` when no boundary does |
| TempCodeRunner.ScanFromFirst | tempCodeRunnerFile.py:396-409 | the scan stops at the first channel boundary where the collected bits end with the delimiter, and unpacks what precedes it |
| TempCodeRunner.LaterHits | tempCodeRunnerFile.py:396-402 | skipping one channel shifts the first hit by one |
| TempCodeRunner.UnframeWhole | tempCodeRunnerFile.py:404-406 | dropping the 16 delimiter bits and packing whole bytes gives the payload |
| TempCodeRunner.FirstHitIsEnd | tempCodeRunnerFile.py:402 | when the framed bits end on a boundary, no earlier boundary hits |
| TempCodeRunner.MatchEnd | tempCodeRunnerFile.py:402 | a prefix ending with the delimiter reaches past the delimiter's first occurrence |
| TempCodeRunner.RoundTrip | tempCodeRunnerFile.py:169-412 | a payload without the delimiter, with `k` dividing the framed length, round-trips |
| TempCodeRunner.ScanReadsBack | tempCodeRunnerFile.py:387-412 | a stream that starts with the framed payload, ending on a boundary, extracts as the payload |
| TempCodeRunner.ScanStopsAt | tempCodeRunnerFile.py:396-409 | the same, with the boundary given |
| TempCodeRunner.MissesUnalignedDelimiter | tempCodeRunnerFile.py:402 | finding C: byte 0 with `k = 5` in six channels (two RGB pixels) is accepted, and extraction returns `None` |
| TempCodeRunner.NoHit | tempCodeRunnerFile.py:402 | in that stream no channel boundary ends with the delimiter |
| TempCodeRunner.ExtractEveryBit | tempCodeRunnerFile.py:396-412 | corrected scan, testing after every bit: `None` when the delimiter never occurs or starts at bit 0, otherwise the packed bits before its first occurrence exactly when they pack |
| TempCodeRunner.EveryBitRoundTrip | tempCodeRunnerFile.py:169-412 | with the corrected scan, every payload without the delimiter round-trips, for every `k` |
| LengthHeader.FramedBits | main.py:289-293 | length header + payload: defined exactly when the length is below `2^32`; 32 header bits whose value is the length, then the payload bits |
| LengthHeader.EmbedData | main.py:281-311 | OverflowError exactly for `2^32` bytes or more; ValueError exactly when the framed bits exceed `len(frames) * k`; otherwise the zero-padded embedding of the framed bits |
| LengthHeader.EmbedLoop | main.py:299-311 | the loop that packs `num_lsb` bits into a number and stores it is the zero-padded group embedding |
| LengthHeader.EmbedLoopWith | main.py:299-311 | the same loop, for any writer that stores the packed number as its zero-padded group |
| LengthHeader.StoreGroup | main.py:309 | storing the packed number writes the padded group |
| LengthHeader.LoopStep | main.py:300-309 | one turn of the loop writes one byte and leaves the rest of the embedding to the remaining bytes and bits |
| LengthHeader.PackGroup | main.py:302-308 | the inner loop reads up to `num_lsb` bits and shifts in zeros after the last, so the number is the group padded on the right |
| LengthHeader.SetBitsOfGroup | main.py:309 | `set_bits` of the packed number equals `set_lsbs` of the group |
| LengthHeader.ExtractDataFromFrames | main.py:321-359 | the extraction loops compute `ExtractData` |
| LengthHeader.ExtractData | main.py:321-359 | with a full header of value `L`, extraction as written returns the chunks of the first `8 * L` stream bits, header included |
| LengthHeader.CollectBits | main.py:345-354 | the payload loop collects the first `limit - start` bits of the stream, starting again at the first byte |
| LengthHeader.CollectGroup | main.py:349-354 | one byte gives its low digits, cut where the counter reaches the limit |
| LengthHeader.DigitOf | main.py:353 | `(bits >> (k - b - 1)) & 1` is digit `b` of the byte's low digits |
| LengthHeader.StreamRestarts | main.py:340-356 | on any stream with a full header, the output is the chunks of the first `8 * L` bits, header included, where `L` is the header value |
| LengthHeader.HeaderValue | main.py:340-341 | `int.from_bytes(bits_to_bytes(header))` is the value of the 32 header bits |
| LengthHeader.RoundTripAsWritten | main.py:281-359 | as written, extraction gives the first `L` bytes of header + payload, not the payload |
| LengthHeader.ReadsHeaderFront | main.py:321-359 | the same for any frames whose stream starts with the framed bits |
| LengthHeader.FramedFront | main.py:289-293 | the first `8L` framed bits are the bits of the first `L` bytes of header + payload |
| LengthHeader.ShortPayloadReadsAsZeros | main.py:345-354 | finding D: a payload of 1 to 3 bytes extracts as that many zero bytes |
| LengthHeader.SmallHeader | main.py:291 | a length below 256 is framed as `[0, 0, 0, L]` |
| LengthHeader.ExtractAfterHeader | main.py:321-359 | corrected extraction: with a full header of value `L`, the chunks of the `8L` stream bits after the header |
| LengthHeader.ExtractAfterHeaderReads | main.py:345-356 | corrected extraction on any stream with a full header: the chunks of the `8L` bits after the header |
| LengthHeader.RoundTrip | main.py:281-359 | with the corrected extraction, every payload below `2^32` bytes that fits round-trips |
| LengthHeader.ReadsPayload | main.py:321-359 | the same for any frames whose stream starts with the framed bits |
| LengthHeader.PayloadAfterHeader | main.py:340-356 | a stream with header value `L` followed by a payload's bits yields that payload |
| LengthHeader.FramedSlices | main.py:289-293 | a stream starting with the framed bits has the length in its first 32 bits and the payload bits after them |
| LengthHeader.Reshape | main.py:196-209 | pixels rebuilt from the flat channel list keep the image's shape and flatten back to that list |
| LengthHeader.FlattenAt | main.py:196-209 | the loops visit pixels row by row and each pixel's channels in order: with `c` channels per pixel, channel `j` of pixel `i` is the `i*c + j`-th channel, and there are `c` times as many channels as pixels |
| LengthHeader.EmbedDataIntoImage | main.py:176-216 | the image twin: the same framing, error cases and embedding, over the row-major channels, with the pixel shape kept |
| LengthHeader.ExtractDataFromImage | main.py:219-276 | the image twin of extraction computes `ExtractData` of the row-major channels |
| Metadata.FileToBits | media_handlers/video_steganography/metadata_handler.py:4-7 | eight digits per byte of the file, which chunk back to the file |
| Metadata.FileToBitsAt | media_handlers/video_steganography/metadata_handler.py:6 | byte `i` is spelled by digits `8i..8i+8` |
| Metadata.BitsToFile | media_handlers/video_steganography/metadata_handler.py:9-11 | `ceil(len / 8)` bytes; whole-byte digit strings are what `file_to_bits` of the result gives |
| Metadata.BitsToFileAt | media_handlers/video_steganography/metadata_handler.py:10-11 | byte `i` is the value of chunk `i` |
| Metadata.ShortChunkOwnValue | media_handlers/video_steganography/metadata_handler.py:11 | a trailing chunk such as `101` becomes byte 5, not `10100000` |
| Metadata.SaveZipFromMetadata | media_handlers/video_steganography/metadata_handler.py:36-57 | nothing written when the category is absent; IndexError on an empty value list; otherwise the first value unpacked by `bits_to_file`'s chunking, one byte per eight-digit chunk |
| Metadata.SaveZipRoundTrip | media_handlers/video_steganography/metadata_handler.py:41-49 | a file stored with `file_to_bits` as the category's first value is written back unchanged |
| TestCodec.Digits | test/test.py:9 | bits spelt as a string whose character `i` is '1' for a set bit and '0' otherwise, so only binary digits, reading back as the same bits |
| TestCodec.Format08b | test/test.py:11 | `format(n, '08b')`: at least eight characters; binary digits reading back as `n` for `n >= 0`, exactly eight for a byte, led by a one above 255; a '-' then binary digits reading back as `-n` for a negative number |
| TestCodec.CharBits | test/test.py:7 | `format(ord(c), '08b')`: the digits of the code point, eight of them below 256, more than eight led by a one from 256 on |
| TestCodec.TextBits | test/test.py:7 | the joined digits of a text: at least eight per character, exactly eight per character below 256 |
| TestCodec.ToBin | test/test.py:5-13 | `to_bin`: TypeError exactly for unsupported types; a string becomes its joined binary digits; bytes a list of eight-digit binary items; an int its binary digits, after a '-' when negative |
| TestCodec.Codes | test/test.py:7 | the code points of a text whose characters are below 256 |
| TestCodec.Chars | test/test.py:92-95 | `chr(int(chunk, 2))` per chunk: one character per byte, with that code |
| TestCodec.CharsOfCodes | test/test.py:92-95 | `chr` of the code points gives the text back |
| TestCodec.TextBitsOfLatin1 | test/test.py:7 | a text below 256 is spelt as the digits of its codes, eight per character, and chunking and `chr` give it back |
| TestCodec.TextBitsAppend | test/test.py:7 | the digits of a concatenated text are the concatenated digits |
| TestCodec.ToBinReadsBack | test/test.py:5-13 | `to_bin` of such a text has `8 * len` digits that decode to the text |
| TestCodec.Encode | test/test.py:16-61 | `encode`: ValueError exactly when `len(secret) + 5 > n_bytes * 6`; otherwise the image size is kept |
| TestCodec.EncodeAt | test/test.py:35-52 | channel `i` becomes zeros, its two high digits, then its slice; channels after the data are untouched |
| TestCodec.EncodeFullSlice | test/test.py:41 | a full six-digit slice replaces the low six digits and keeps the high two |
| TestCodec.EncodeFits | test/test.py:18-25 | an accepted secret's digits fit in six bits per channel |
| TestCodec.HashMarkIsHashes | test/test.py:85 | the 40-digit literal decode looks for is `to_bin("#####")` |
| TestCodec.OctetOfHash | test/test.py:22 | `format(ord('#'), '08b')` is `00100011` |
| TestCodec.HashesFacts | test/test.py:22 | the framed secret is the secret's digits followed by the 40-digit mark |
| TestCodec.StopAt | test/test.py:75-87 | the stream length kept by `decode`: a whole number of pixels, the first pixel boundary where the last 40 digits are the mark, or the whole stream |
| TestCodec.Decode | test/test.py:67-98 | `decode`: at most one character per eight stream digits (rounded up), each below 256 |
| TestCodec.MarkPrefix | test/test.py:85 | whether a boundary shows the mark depends only on the digits up to it |
| TestCodec.StopsAtMark | test/test.py:75-87 | the first boundary that shows the mark is where decoding stops |
| TestCodec.FirstMarkAt | test/test.py:85 | a framed text ending on a boundary, with no earlier boundary showing the mark, shows it first at its end |
| TestCodec.ReadsText | test/test.py:75-90 | such a stream is cut exactly after the framed text |
| TestCodec.RoundTripAligned | test/test.py:16-98 | when `len(secret) + 5` is a multiple of 9 and no earlier pixel boundary shows the mark, decode returns the secret followed by `#####` (the mark is not stripped) |
| TestCodec.ThreePixelsMisread | test/test.py:41 | finding E: the empty secret in any three-pixel image decodes to seven characters, not `#####` |
| TestCodec.SeventhCharacter | test/test.py:90-95 | 54 digits without a mark at a boundary give seven characters |
| TestCodec.EncodeCorrected | test/test.py:16-61 | the corrected encoding, zero-padding the last slice: same ValueError condition, size kept |
| TestCodec.ReadToMark | test/test.py:85 | corrected reading: the digits up to the first length at which they end with the mark, as characters, or all of them when no prefix ends with it |
| TestCodec.FirstEndAfterFind | test/test.py:85 | the first occurrence of the mark ends at the first length where the digits end with it, and at no other such first length |
| TestCodec.DecodeCorrected | test/test.py:67-98 | corrected decoding: every character below 256 |
| TestCodec.CorrectedRoundTrip | test/test.py:16-98 | with the corrected pair, every text below 256 whose digits never show the mark round-trips to the text followed by `#####` |
| TestCodec.ReadsMarked | test/test.py:85 | a stream that starts with some digits and then the mark, found nowhere earlier, is read up to and including the mark |

## Left out

- The GUI, dialogs, message boxes and display code: they only call the codecs and report their outcome. This covers the `SteganographyApp` classes, `display_utils.py` and `file_dialogs.py`.
- The media adapters and `steganography_core.py` only hand file paths to the codecs.
- File, image, audio and MP4 I/O (PIL, cv2, wave, mutagen, `open`) is not modelled. A cover enters as the bytes those libraries yield (an image's channels in row-major order), a payload as its bytes, and the output as the result.
- `print` output is not modelled.
- The final `decode('utf-8', errors='replace')` is left out: the extractors return the recovered bytes. The text decode is then applied to exactly these bytes.
- `load_metadata` and `add_metadata` are mutagen I/O only. The tag store is a map from category to the list of stored values.
- `num_lsbs` outside 1..8 is not modelled. The GUI's spinbox offers 1..8.
- main.py calls `set_bits`, `get_bits`, `bytes_to_bits` and `bits_to_bytes` but never defines them. They are taken to be `Lsb.SetBits` (replace the low `k` bits), `Lsb.GetBits` (`v % 2^k`), `Bits.BytesToBits` and `Bits.ChunkBytes`.
- main.py does not parse: the `try:` that opens `embed_into_image` (main.py:177) has no `except`, and the code after it drops back to class level at main.py:185, a SyntaxError. None of its functions can run as written, the audio codec included. The model follows the evident algorithm of each function.
- main.py's image twin also uses names it never binds: `width`, `height`, `pixels`, `img`, `num_channels`, `num_lsb`, `output_path`. The model takes their evident meaning, with the same loop as the audio codec over the row-major channels.
- main.py's extraction of a single-band image (the non-tuple pixel case) is not modelled.
- StegoUtils.EmbedIntoImage, StegoUtils.ExtractFromImage, TempCodeRunner.EmbedIntoImage and TempCodeRunner.ExtractFromImage: single-band (`L` or `P`) images are not modelled. There a pixel is an int, so `list(cover_pixels[x, y])` (steganography_utils.py:61, tempCodeRunnerFile.py:198) and `pixel[n]` (steganography_utils.py:92, tempCodeRunnerFile.py:400) raise a TypeError, which the `except` at steganography_utils.py:74 and :109 (tempCodeRunnerFile.py:211 and :413) turns into `None`. The model always takes a pixel to be a tuple of channels.
- The `except Exception` handlers of `check_capacity` only catch I/O failures, which are not modelled. The ValueError and OverflowError that `extract_from_image` can catch are modelled, as `None`.
- The metadata tag values are modelled as bits. A stored string with characters other than '0' and '1' (an `int(·, 2)` error) is not modelled.
- test.py's top-level script and its cv2 image reading and writing are not modelled. Images are taken to have three channels, flattened row-major.
- test.py's `to_bin` of a NumPy array is modelled as a list of bytes, and `np.uint8` as an int.
- TestCodec.Decode: its contract gives only bounds on the result. What it returns is stated by `StopAt`, `RoundTripAligned` and `ThreePixelsMisread`.
- TestCodec.DecodeCorrected: its contract only bounds the characters. Its round trip is `CorrectedRoundTrip`.
- LengthHeader.ExtractData and LengthHeader.ExtractAfterHeader: their contracts speak only of streams that hold the full 32-bit header. For a shorter stream the header is the whole stream, and no contract states what comes back.

## Findings

| source | as written | input that shows it | evidently intended | confidence | as-written member | corrected member |
|---|---|---|---|---|---|---|
| common/bit_manipulation.py:16 | a short last group is stored right-aligned, as `int(group, 2)` in the low bits | payload `[255]`, `k = 5`, five cover bytes: the stream reads 20 ones, 0, 111, 0, the delimiter is found at bit 5, and the result is `[31]` | store the short group padded on the right, so the stream starts with the framed bits | high, not executed | BitManipulation.RightAlignedMisreads | BitManipulation.ZeroPaddedRoundTrip |
| steganography_utils.py:46 | the terminator is the first `num_lsbs` digits of the delimiter, which for `k <= 8` is `k` ones | payload `b'A'` (01000001), `k = 1`, nine or more channels: the terminator `1` is first found at bit 1, and extraction gives empty bytes | frame with the whole 16-digit delimiter | high, not executed | StegoUtils.OneLsbLosesPayload | TempCodeRunner.EveryBitRoundTrip |
| steganography_utils.py:54 | capacity is checked against the payload bits without the terminator | payload `[0]`, `k = 1`, eight channels: accepted, the terminator is not written, and extraction returns `None` | check the framed length | high, not executed | StegoUtils.GuardDropsDelimiter | TempCodeRunner.EveryBitRoundTrip |
| tempCodeRunnerFile.py:402 | the delimiter is tested only after whole channels of `k` bits | payload `[0]`, `k = 5`, six channels (two RGB pixels): the delimiter ends at bit 24, inside the fifth channel, and no boundary sees it, so the result is `None` | test after every bit, or equivalently cut at the first occurrence | high, not executed | TempCodeRunner.MissesUnalignedDelimiter | TempCodeRunner.EveryBitRoundTrip |
| main.py:345-354 | the payload loop starts again at the first byte with the counter already at 32, so it collects the first `8L` bits of the stream | any payload of 1 to 3 bytes: the header's leading zero bytes come back instead | skip the 32 header bits | high, not executed | LengthHeader.ShortPayloadReadsAsZeros | LengthHeader.RoundTrip |
| test/test.py:41 | a short last slice is appended after the two high digits, and the mark is tested only after whole pixels | the empty secret in any three-pixel image: decode returns seven characters, not `#####` | zero-pad the last slice and test for the mark after every bit | high, not executed | TestCodec.ThreePixelsMisread | TestCodec.CorrectedRoundTrip |
