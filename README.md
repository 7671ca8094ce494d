# MCCCEADeflate container framing in Dafny

MCCCEADeflate packs a file into a chunked deflate container and unpacks it
again. The container is laid out like this:

| bytes | contents |
|---|---|
| [0, 4) | the chunk count, as a little-endian int32 |
| [4 + 4i, 8 + 4i) | the offset of chunk i's record, little-endian |
| from 0x40000 on | the records, one after the other |

Each record holds a chunk's uncompressed size (4 bytes) and then a zlib
stream of its at most 0x20000 bytes. `Compress` writes the count first. It
then writes the records from 0x40000 on, remembering where each one starts,
and finally goes back to byte 4 to fill in the table. `Decompress` reads the
count and the table and adds 6 to every entry. The 6 skips the size field
and the 2-byte zlib header (section 2.2 of RFC 1950). It then inflates the
bytes from each start up to the next start, or up to the end of the file for
the last chunk, as raw deflate (RFC 1951). The results are appended to the
output in index order.

The project has seven modules, one per file:

- `Int32` (`int32.dfy`) models the C# `int` semantics the code relies on.
  This covers the `&` and `~` of the chunk-count mask, unchecked wrap-around,
  and the little-endian bytes of `BinaryWriter.Write(int)` and
  `BitConverter.ToInt32`.
- `Streams` (`streams.dfy`) models a seekable byte stream as the `ByteStream`
  class with `data` and `position` fields. A read past the end leaves the
  caller's buffer zero-filled. A write past the end fills the gap with zeros.
- `Codec` (`codec.dfy`) takes zlib compression and raw-deflate decompression
  as function parameters. The predicate `Laws` states what the framing needs
  of them:
  - the zlib stream of a non-empty chunk starts with a 2-byte header;
  - whenever a stream has that header, the bytes after it inflate back to
    the original, whatever follows them.

  Nothing is assumed of the stream for an empty chunk, which may be no bytes
  at all. A stored, uncompressed stand-in codec, which writes nothing for an
  empty chunk, shows that `Laws` can be met.
- `Container` (`container.dfy`) defines the constants, the chunk count and
  the layout function `Layout(chunks, z)`. It proves the offset recurrence
  and where every header field and record lies.
- `Encoder` (`encoder.dfy`) holds `Compress` as an imperative method over two
  `ByteStream`s, with the chunk loop and the table loop of the source. It is
  proved to produce exactly `Layout(ChunksAsWritten(input), z)`. The module
  also defines both the chunking the code performs (`ChunksAsWritten`) and the
  intended one (`Chunks`).
- `Decoder` (`decoder.dfy`) holds `Decompress` as an imperative method: the
  table loop fills an `array<int>`, and the chunk loop seeks, reads and
  inflates. It is proved equal to the function `Decode`. Every runtime
  exception the code can raise on a malformed container is a `DecodeError`.
  On failure the model's output is what the chunks before the failing one
  inflated to. The code never rolls the file back, but the exception skips
  the `Close` at lines 193-194, so bytes still buffered in `out_file_stream`
  may be missing from the file.
- `RoundTrip` (`roundtrip.dfy`) proves that decoding a laid-out container
  gives back its chunks in order.

The compressor and decompressor are parameters, so the two methods work for
any codec. The round-trip lemmas hold for every codec that obeys `Laws`.

## Model

| member | source | states |
|---|---|---|
| Int32.Wrap32 | MCCCEADeflate/Program.cs:223 | the `(int)` cast and unchecked `int` arithmetic give a value in the int32 range, congruent to the exact value modulo 2^32, and equal to it whenever it is already in range |
| Int32.BitAnd | MCCCEADeflate/Program.cs:212 | `&` on non-negative values gives a result no larger than either operand |
| Int32.BitNot32 | MCCCEADeflate/Program.cs:212 | `~` of a 32-bit pattern is again a 32-bit pattern |
| Int32.Wrap32Congruent | MCCCEADeflate/Program.cs:223 | values congruent modulo 2^32 wrap to the same int32 |
| Int32.Wrap32Add | MCCCEADeflate/Program.cs:163 | adding 6 to an entry already read as an int and wrapping gives the wrap of the exact sum |
| Int32.Wrap32Sub | MCCCEADeflate/Program.cs:178 | subtracting an int start from the `(int)` file length and wrapping gives the wrap of the exact difference |
| Int32.LE32 | MCCCEADeflate/Program.cs:214-240 | `BinaryWriter.Write(int)` emits exactly four bytes |
| Int32.ToInt32 | MCCCEADeflate/Program.cs:154-163 | `BitConverter.ToInt32` yields a value in the int32 range |
| Int32.ClearLowBits | MCCCEADeflate/Program.cs:212 | `&` with a mask whose bits k up to w are set clears exactly the k low bits of a w-bit number |
| Int32.ToInt32OfLE32 | MCCCEADeflate/Program.cs:154 | `BitConverter.ToInt32` on the four bytes `BinaryWriter.Write(int)` emits gives back the value, wrapped to int32 |
| Int32.ToInt32Slice | MCCCEADeflate/Program.cs:163 | `ToInt32(b, at)` depends on the four bytes from `at` only |
| Int32.LE32OfWrap32 | MCCCEADeflate/Program.cs:223 | writing a position after its `(int)` cast emits the same four bytes as writing the exact position |
| Streams.ReadAt | MCCCEADeflate/Program.cs:184 | the n-byte buffer after a read holds the stream's byte at each position inside the stream and zero past its end |
| Streams.Available | MCCCEADeflate/Program.cs:233 | a read delivers at most n bytes, never reads past the end, and delivers all n unless it reaches the end |
| Streams.WriteAt | MCCCEADeflate/Program.cs:217-240 | a write of no bytes leaves the length alone; otherwise the stream keeps its length when the write lands inside it and grows to the end of the write when it does not |
| Streams.WriteAtIndex | MCCCEADeflate/Program.cs:228 | after a write each byte is the written byte where the write landed, the old byte elsewhere, and zero in any gap the write opened |
| Streams.WritePastEnd | MCCCEADeflate/Program.cs:216-228 | a write at or past the end appends after a zero gap (the first size field after the jump to 0x40000) |
| Streams.WriteAtEnd | MCCCEADeflate/Program.cs:230-235 | a write at the end appends |
| Streams.WriteOverZeros | MCCCEADeflate/Program.cs:238-240 | a write over a run of zeros replaces its head and leaves everything before and after it unchanged |
| Streams.ByteStream.constructor | MCCCEADeflate/Program.cs:202-207 | a stream opens on its contents with the cursor at 0 (the output file starts empty) |
| Streams.ByteStream.Seek | MCCCEADeflate/Program.cs:217 | setting `Position` moves the cursor and changes no byte |
| Streams.ByteStream.Write | MCCCEADeflate/Program.cs:228 | a write changes the contents as `WriteAt` says and advances the cursor by the number of bytes written |
| Streams.ByteStream.Read | MCCCEADeflate/Program.cs:233 | a read returns the zero-filled buffer `ReadAt` describes, changes no byte, and advances the cursor by what was available |
| Codec.Laws | MCCCEADeflate/Program.cs:188-230 | what the framing needs of the codec: a non-empty chunk's zlib stream has a 2-byte header, and the bytes past a header inflate back to the chunk whatever trails them; nothing is required of an empty chunk's stream |
| Codec.StoredCodecObeysLaws | MCCCEADeflate/Program.cs:230 | the codec laws the framing relies on are satisfiable: a stored codec with a 2-byte header meets them |
| Codec.UnescapeEscape | MCCCEADeflate/Program.cs:188 | the stand-in decompressor recovers the stand-in stream's bytes whatever trails them |
| Container.MaskRoundsDown | MCCCEADeflate/Program.cs:212 | `x & ~0x1FFFF` on a 32-bit value rounds it down to a multiple of 0x20000 |
| Container.ChunkCount | MCCCEADeflate/Program.cs:212 | the mask expression gives the least number of 0x20000-byte chunks that hold n bytes, and it fits the table area |
| Container.ChunkCountIsCeiling | MCCCEADeflate/Program.cs:212 | the mask expression equals ceiling division by 0x20000, and it is 0 exactly for empty input |
| Container.Record | MCCCEADeflate/Program.cs:228-234 | a record is the 4-byte size field followed by the chunk's zlib stream |
| Container.Records | MCCCEADeflate/Program.cs:221-236 | the records together take at least 4 bytes per chunk |
| Container.OffsetAt | MCCCEADeflate/Program.cs:223 | record i starts at or after 0x40000 + 4i |
| Container.Table | MCCCEADeflate/Program.cs:238-240 | the table takes exactly 4 bytes per entry |
| Container.Layout | MCCCEADeflate/Program.cs:199-244 | the container is the 4-byte count alone exactly when there are no chunks; otherwise it holds the 0x40000-byte header region and at least a size field per chunk |
| Container.Head | MCCCEADeflate/Program.cs:214-217 | the header region, count, table and unwritten zeros, is exactly 0x40000 bytes long |
| Container.Offsets | MCCCEADeflate/Program.cs:223 | the table has one offset per chunk, offset i being where record i starts |
| Container.OffsetRecurrence | MCCCEADeflate/Program.cs:216-234 | the first record starts at 0x40000 and each next one right after the previous record's size field and zlib stream |
| Container.OffsetsIncrease | MCCCEADeflate/Program.cs:221-236 | offsets strictly increase, each by at least the 4-byte size field, so records never overlap |
| Container.RecordsAt | MCCCEADeflate/Program.cs:228-235 | record i lies in the records area between the end of the records before it and the start of those after it |
| Container.TableAt | MCCCEADeflate/Program.cs:238-240 | the table is 4 bytes per entry, and entry i occupies bytes [4i, 4i + 4) |
| Container.LayoutRecord | MCCCEADeflate/Program.cs:228-235 | chunk i's record, its size field and then its zlib stream, lies between offsets i and i + 1, and the container ends right after the last record |
| Container.LayoutHeader | MCCCEADeflate/Program.cs:214-240 | the count is at [0, 4), offset i at [4 + 4i, 8 + 4i), and the bytes from the end of the table up to 0x40000 are zero |
| Encoder.SizeAsWritten | MCCCEADeflate/Program.cs:224-226 | the size the encoder gives a chunk never exceeds 0x20000 and never runs past the end of the input |
| Encoder.SizesAsWritten | MCCCEADeflate/Program.cs:224-226 | every size field but the last is 0x20000; the last is 0 exactly when the length is a multiple of 0x20000; the size is the intended one except in that case |
| Encoder.ChunksAsWritten | MCCCEADeflate/Program.cs:221-235 | there is one chunk per counted chunk, and chunk i is the input slice from i * 0x20000 of the size the encoder gives it |
| Encoder.ChunkLength | MCCCEADeflate/Program.cs:224-226 | the intended size: between 1 and 0x20000 bytes, and the last chunk ends exactly at the end of the input |
| Encoder.Chunks | MCCCEADeflate/Program.cs:221-235 | the intended chunking: consecutive slices from i * 0x20000 of the intended sizes |
| Encoder.FlattenChunks | MCCCEADeflate/Program.cs:221-235 | the intended chunks laid end to end are exactly the input |
| Encoder.KeptLength | MCCCEADeflate/Program.cs:226 | the encoder keeps every byte unless the length is a positive multiple of 0x20000, when it loses exactly the last 0x20000 |
| Encoder.FlattenChunksAsWritten | MCCCEADeflate/Program.cs:221-235 | the chunks the encoder reads, laid end to end, are the input's first `KeptLength` bytes, and they are the whole input exactly when the length is 0 or not a multiple of 0x20000 |
| Encoder.ChunksAsWrittenShape | MCCCEADeflate/Program.cs:221-226 | every chunk but the last holds 0x20000 bytes, there are no chunks exactly for empty input, and the last chunk is empty exactly when the length is a multiple of 0x20000 |
| Encoder.ThreeChunks | MCCCEADeflate/Program.cs:212-226 | a 300000-byte input gives three chunks of 0x20000, 0x20000 and 37856 bytes that make up the whole input |
| Encoder.ChunksAsWrittenAgree | MCCCEADeflate/Program.cs:224-226 | when the length is 0 or not a multiple of 0x20000 the encoder reads exactly the intended chunks |
| Encoder.WriteRecord | MCCCEADeflate/Program.cs:228-235 | writing chunk i's size field at its offset, then its zlib stream, appends record i and moves to offset i + 1 |
| Encoder.ChunkStep | MCCCEADeflate/Program.cs:221-236 | one pass of the chunk loop reads chunk i from where the previous pass stopped, writes its record and leaves the input cursor at the next chunk |
| Encoder.TableStart | MCCCEADeflate/Program.cs:238 | once all records are written the table area is still all zeros |
| Encoder.WriteTableEntry | MCCCEADeflate/Program.cs:239-240 | writing entry i (any value with the offset's four bytes, such as its `(int)` cast) over the zeros extends the table by one entry and changes nothing else |
| Encoder.TableEnd | MCCCEADeflate/Program.cs:238-240 | with every entry written the stream is the container layout |
| Encoder.WrappedBytes | MCCCEADeflate/Program.cs:223 | the positions remembered as `int`s are written as the same bytes as the exact positions |
| Encoder.Compress | MCCCEADeflate/Program.cs:199-244 | the encoder writes exactly the container layout of the chunks it reads |
| Encoder.WriteChunks | MCCCEADeflate/Program.cs:221-236 | the chunk loop leaves the count, a zero gap up to 0x40000 and every record in order, and it returns the `(int)` of each record's starting position |
| Encoder.WriteTable | MCCCEADeflate/Program.cs:238-240 | the table loop writes entry i at 4 + 4i for every chunk and completes the header |
| Decoder.Starts | MCCCEADeflate/Program.cs:161-164 | start i is table entry i read at byte 4i, plus 6, in int arithmetic |
| Decoder.SpanLength | MCCCEADeflate/Program.cs:171-179 | the buffer length is an int; without wrap-around a chunk's span ends at the next start, and the last chunk's at the end of the file |
| Decoder.Span | MCCCEADeflate/Program.cs:182-184 | chunk i's buffer has the span length |
| Decoder.ChunkErrors | MCCCEADeflate/Program.cs:182-188 | chunk i stops with `NegativeSpan` exactly when its length is negative, with `NegativeSeek` exactly when its length is not negative but its start is, and with `CorruptStream` exactly when both are non-negative and its bytes do not inflate |
| Decoder.ChunkOutput | MCCCEADeflate/Program.cs:171-190 | chunk i fails, and only at chunk i, exactly when its length is negative (`NegativeSpan`, line 182), its start is negative (`NegativeSeek`, line 183) or its bytes do not inflate (`CorruptStream`, line 188); otherwise it yields what they inflate to |
| Decoder.DecodeChunks | MCCCEADeflate/Program.cs:169-191 | the chunk loop can stop only at a chunk it has reached |
| Decoder.Decode | MCCCEADeflate/Program.cs:152-191 | a negative count (`NegativeCount`, line 156) and a count whose table size overflows (`TableOverflow`, line 157) are exactly the two header errors; any chunk error lies below the count |
| Decoder.FailurePersists | MCCCEADeflate/Program.cs:169-191 | once a chunk fails, the later chunks change nothing |
| Decoder.OutputGrows | MCCCEADeflate/Program.cs:190 | the output only grows: what the first j chunks wrote stays at its front |
| Decoder.DecodeChunksSucceeds | MCCCEADeflate/Program.cs:169-191 | decoding the first k chunks succeeds exactly when every one of them inflates |
| Decoder.DecodeChunksOutputs | MCCCEADeflate/Program.cs:186-190 | when every chunk inflates, the output is their outputs concatenated in index order |
| Decoder.FirstFailure | MCCCEADeflate/Program.cs:169-191 | the decoder stops at the first failing chunk, with that chunk's error and the output of the chunks before it |
| Decoder.SpanInFile | MCCCEADeflate/Program.cs:171-184 | with non-decreasing starts inside the file, span i is the file between start i and the next start (or the end) |
| Decoder.Tiling | MCCCEADeflate/Program.cs:169-184 | those spans, in index order, tile the file from the first start to the end of the last span with no gap and no overlap |
| Decoder.Decompress | MCCCEADeflate/Program.cs:146-195 | the decoder's output and its stopping error are those of `Decode` |
| Decoder.FillStarts | MCCCEADeflate/Program.cs:161-164 | the offsets array ends up holding every start |
| Decoder.DecompressChunks | MCCCEADeflate/Program.cs:169-191 | the chunk loop's output and stopping error are those of `DecodeChunks` over every chunk |
| Decoder.DecompressChunk | MCCCEADeflate/Program.cs:171-190 | one pass either appends the chunk's output or stops with the chunk's error, as `ChunkOutput` says |
| Decoder.ChunkSucceeds | MCCCEADeflate/Program.cs:190 | appending chunk i's output to the output so far yields the state after chunk i |
| Decoder.ChunkFails | MCCCEADeflate/Program.cs:182-190 | a failing chunk i leaves the output so far with its error |
| RoundTrip.CountReadBack | MCCCEADeflate/Program.cs:153-154 | the count the decoder reads back from a container is its number of chunks |
| RoundTrip.EntryReadBack | MCCCEADeflate/Program.cs:159-163 | table entry i the decoder reads back, plus 6 in int arithmetic, is record i's offset plus 6, wrapped to an int |
| RoundTrip.StartsReadBack | MCCCEADeflate/Program.cs:161-164 | every start the decoder computes is its record's offset plus 6, wrapped to an int: right past the size field and zlib header |
| RoundTrip.RecordsLongEnough | MCCCEADeflate/Program.cs:163 | a record whose stream has its 2-byte header is at least 6 bytes long, so the skip stays inside it |
| RoundTrip.SpanOfRecord | MCCCEADeflate/Program.cs:163-184 | the bytes from chunk i's start to the end of its record are its zlib stream without the header |
| RoundTrip.SpanReadBack | MCCCEADeflate/Program.cs:171-190 | a span holding a zlib stream's deflate data, followed only by the next record's size field and header or by the end of the file, inflates to the chunk |
| RoundTrip.SpanOfRecordLength | MCCCEADeflate/Program.cs:171-179 | a chunk's buffer length is its record's length, up to the next start, or for the last record, which ends the file, that length less 6 |
| RoundTrip.ShortSpanLength | MCCCEADeflate/Program.cs:176-182 | a last record shorter than 6 bytes gives a negative buffer length |
| RoundTrip.RecordReadBack | MCCCEADeflate/Program.cs:171-190 | a record holding a zlib stream's deflate data past its skip, with the starts the decoder computes, inflates back to its chunk |
| RoundTrip.LayoutPlaced | MCCCEADeflate/Program.cs:221-235 | each record of a laid-out container lies at its offset, ends inside the container and holds its stream's deflate data past the skip |
| RoundTrip.LayoutOffsets | MCCCEADeflate/Program.cs:161-240 | the record offsets of a laid-out container: each record lies at its offset, the last ends the file, and every start the decoder computes is its offset plus 6 |
| RoundTrip.LeadingRecords | MCCCEADeflate/Program.cs:169-191 | the first m records, each stream having its header, decode to the first m chunks concatenated in order |
| RoundTrip.DecodeRecords | MCCCEADeflate/Program.cs:169-191 | records placed back to back decode to all chunks in order, unless the last stream is shorter than a header, when the decoder stops there with `NegativeSpan` after all the others |
| RoundTrip.DecodeLayout | MCCCEADeflate/Program.cs:146-195 | decoding a laid-out container whose streams all have their header succeeds with all its chunks in order; when only the last stream lacks a header the decoder returns the others and stops on it with `NegativeSpan` |
| RoundTrip.DecodeNonEmptyChunks | MCCCEADeflate/Program.cs:146-195 | chunks all non-empty but possibly the last decode in order; an empty last chunk adds nothing, and the decoder stops on it with `NegativeSpan` unless its stream has a header |
| RoundTrip.RoundTrip | MCCCEADeflate/Program.cs:199-244 | with the intended chunking, decoding the container gives back the input |
| RoundTrip.RoundTripAsWritten | MCCCEADeflate/Program.cs:224-226 | decoding what the encoder writes gives the input's first `KeptLength` bytes: the whole input, without error, exactly when its length is 0 or not a multiple of 0x20000; otherwise the last 0x20000 bytes are lost and the decoder also stops with `NegativeSpan` on the empty last chunk unless the compressor wrote a header for it |
| RoundTrip.FullChunkIsLost | MCCCEADeflate/Program.cs:226 | 0x20000 input bytes become a single empty chunk; with the stand-in codec, which writes no stream for it, the container decodes to nothing and stops with `NegativeSpan(0)` |

## Left out

- Command-line handling (MCCCEADeflate/Program.cs:27-143) is out: the argument parsing, help text, output-path derivation and the `mode` field (line 25) are user-interface glue around the two operations.
- The zlib and deflate algorithms are out (Ionic.Zlib's `ZlibStream` at BestSpeed and `DeflateStream`). They are foreign code. They are function parameters, and `Codec.Laws` states the only facts the framing needs. The model does not split the stream into header, body and Adler-32 trailer: the trailer is just part of what may follow the deflate data.
- `DeflateStream` may write part of a corrupt chunk's output before it throws. The model appends nothing for a failing chunk.
- Short reads are out. A `Read` delivers everything up to the end of the stream, which is what file and memory streams do.
- Files on disk are out. `FileMode.OpenOrCreate` (line 207) and `File.OpenWrite` (line 149) do not truncate an existing output file. The model's output streams start empty, and the model does not capture the bytes an older file leaves behind: its stale trailing bytes past the new end, and its bytes in the never-written table area [4 + 4 * count, 0x40000), which on a reused file are not zero. `Container.LayoutHeader`'s zeros and the equality of `Encoder.Compress`'s output with `Layout` hold for a fresh output file.
- `BitConverter` is modelled for a little-endian host only.
- Allocation failures are out, e.g. `new int[count]` for a huge count raising `OutOfMemoryException`.
- The commented-out earlier `Compress` (lines 246-304) is dead code.
- Console progress output (lines 166 and 219) is out, and so are stream closing and disposal, including the buffered output bytes an exception in `Decompress` may keep from reaching the file.
- Encoder.Compress: requires an input of at most 0x7FFE0000 bytes; the model does not follow longer inputs. For lengths 0x7FFE0001 to 0xFFFE0000 the `int` count is negative, because `(int)fsi.Length + 0x1FFFF` overflows or `(int)fsi.Length` is already negative. For lengths 0xFFFE0001 to 2^32 - 1 the count is 0. From 2^32 on, `(int)fsi.Length` wraps, and the count is that of the length modulo 2^32.
- Container.ChunkCount: has the same bound. It states the count only where the `int` expression does not overflow.
- What `ZlibStream` writes for an empty chunk is left open: `Codec.Laws` requires nothing of it, and `RoundTrip.RoundTripAsWritten` states the outcome both when that stream has a header and when it does not.
- RoundTrip.DecodeLayout: requires a container shorter than 2^31 bytes, since the decoder's positions and `(int)in_file_stream.Length` are ints. RoundTrip.RoundTrip and RoundTrip.RoundTripAsWritten inherit this bound. The decoder itself (`Decoder.Decode`) handles every length, wrap-around included.
- Truncation detection is out. A truncated or altered container is only detected as far as the decompressor rejects its bytes; the model guarantees no more.
- In several places the code does not do what the container format suggests; the model follows the code:
  - The count is read as a signed int32. A count with the top bit set raises the `NegativeCount` error instead of being read as unsigned.
  - An offset past the end of the file, or a span reaching past it, raises no corruption error. The buffer is just zero-filled (`Streams.ReadAt`).
  - Empty input gives a 4-byte container holding only the count. Setting `Position` without writing does not extend the file.
  - The count is written before the records (line 214), not during the table backfill.
  - A length that is a positive multiple of 0x20000 gives a last chunk of size 0, so its bytes are never stored (see Findings).

## Findings

| source | as written | input that shows it | evidently intended | confidence | as-written member | corrected member |
|---|---|---|---|---|---|---|
| MCCCEADeflate/Program.cs:226 | the last chunk's size is `length % 0x20000`, which is 0 when the length is a positive multiple of 0x20000, so the last 0x20000 bytes are never read or stored | 0x20000 bytes of zeros: one chunk of size 0; the container decodes to nothing (with the stand-in codec, stopping with `NegativeSpan(0)`) | the last chunk holds the remaining `length - (count - 1) * 0x20000` bytes, between 1 and 0x20000 | not executed | RoundTrip.FullChunkIsLost | RoundTrip.RoundTrip |

`Encoder.Compress` models the code as written, so its container is built
from `Encoder.ChunksAsWritten`. The corrected chunking is `Encoder.Chunks`.
`Encoder.FlattenChunks` and `RoundTrip.RoundTrip` prove that it reproduces
every input. `RoundTrip.RoundTripAsWritten` states exactly which inputs the
code as written loses bytes on, and how the decoder then ends.
