/** Decoding what the encoder lays out: every chunk comes back, in order, as
    long as the codec obeys its laws and the container stays shorter than 2^31
    bytes (the decoder's positions are ints). */
module RoundTrip {
  import opened Int32
  import opened Wrappers
  import opened Streams
  import opened Codec
  import opened Container
  import opened Encoder
  import opened Decoder

  lemma SliceOfSlice(s: seq<byte>, a: nat, b: nat, d: nat, e: nat)
    requires a <= b <= |s| && d <= e <= b - a
    ensures s[a..b][d..e] == s[a + d..a + e]
  {
    var t := s[a..b][d..e];
    assert |t| == e - d;
    forall k | 0 <= k < e - d ensures t[k] == s[a + d + k] {
    }
  }

  /** A record whose zlib stream has its 2-byte header is at least six bytes
      long: the decoder's start stays inside it. */
  lemma RecordsLongEnough(chunks: seq<seq<byte>>, z: Compressor, i: nat)
    requires |chunks| <= TableCapacity && i < |chunks| && |z(chunks[i])| >= 2
    ensures OffsetAt(chunks, z, i) + HeaderSkip <= OffsetAt(chunks, z, i + 1) <= |Layout(chunks, z)|
  {
    LayoutRecord(chunks, z, i);
    OffsetRecurrence(chunks, z, i);
  }

  /** The count the decoder reads back is the number of chunks. */
  lemma CountReadBack(chunks: seq<seq<byte>>, z: Compressor)
    requires |chunks| <= TableCapacity
    ensures ToInt32(ReadAt(Layout(chunks, z), 0, 4), 0) == |chunks|
  {
    var l := Layout(chunks, z);
    if chunks != [] {
      LayoutHeader(chunks, z);
    }
    ReadInside(l, 0, 4);
    assert l[0..4] == l[..4];
    ToInt32OfLE32(|chunks|);
  }

  /** Entry i of the table the decoder reads back, plus the skip in int
      arithmetic, is record i's offset plus the skip, wrapped to an int. */
  lemma EntryReadBack(chunks: seq<seq<byte>>, z: Compressor, i: nat)
    requires 0 < |chunks| <= TableCapacity && i < |chunks|
    ensures 4 + 4 * |chunks| <= |Layout(chunks, z)|
    ensures Wrap32(ToInt32(ReadAt(Layout(chunks, z), 4, 4 * |chunks|), 4 * i) + HeaderSkip)
         == Wrap32(OffsetAt(chunks, z, i) + HeaderSkip)
  {
    var n := |chunks|;
    var l := Layout(chunks, z);
    var o := OffsetAt(chunks, z, i);
    LayoutHeader(chunks, z);
    ReadInside(l, 4, 4 * n);
    var table := ReadAt(l, 4, 4 * n);
    ToInt32Slice(table, 4 * i);
    assert table == l[4..4 + 4 * n];
    SliceOfSlice(l, 4, 4 + 4 * n, 4 * i, 4 * i + 4);
    assert l[4 + 4 * i..8 + 4 * i] == LE32(o);
    assert table[4 * i..4 * i + 4] == LE32(o);
    ToInt32OfLE32(o);
    assert ToInt32(table, 4 * i) == Wrap32(o);
    Wrap32Add(o, HeaderSkip);
  }

  /** The starts the decoder computes for a laid-out container. */
  lemma StartsReadBack(chunks: seq<seq<byte>>, z: Compressor)
    requires 0 < |chunks| <= TableCapacity
    ensures var n := |chunks|;
      |ReadAt(Layout(chunks, z), 4, 4 * n)| == 4 * n &&
      forall i :: 0 <= i < n ==>
        Starts(ReadAt(Layout(chunks, z), 4, 4 * n), n)[i] == Wrap32(OffsetAt(chunks, z, i) + HeaderSkip)
  {
    forall i | 0 <= i < |chunks|
      ensures Starts(ReadAt(Layout(chunks, z), 4, 4 * |chunks|), |chunks|)[i]
           == Wrap32(OffsetAt(chunks, z, i) + HeaderSkip)
    {
      EntryReadBack(chunks, z, i);
    }
  }

  /** The bytes from a record's deflate data to the end of the record: chunk
      i's zlib stream without its header. */
  lemma SpanOfRecord(chunks: seq<seq<byte>>, z: Compressor, i: nat)
    requires |chunks| <= TableCapacity && i < |chunks| && |z(chunks[i])| >= 2
    ensures OffsetAt(chunks, z, i) + HeaderSkip <= OffsetAt(chunks, z, i + 1) <= |Layout(chunks, z)|
    ensures |Layout(chunks, z)| == OffsetAt(chunks, z, |chunks|)
    ensures Layout(chunks, z)[OffsetAt(chunks, z, i) + HeaderSkip..OffsetAt(chunks, z, i + 1)]
         == z(chunks[i])[2..]
  {
    LayoutRecord(chunks, z, i);
    RecordsLongEnough(chunks, z, i);
    SkipHeader(Layout(chunks, z), OffsetAt(chunks, z, i), OffsetAt(chunks, z, i + 1),
      LE32(|chunks[i]|), z(chunks[i]));
  }

  /** Past a 4-byte field and a 2-byte header lies the rest of the stream. */
  lemma SkipHeader(l: seq<byte>, a: nat, b: nat, field: seq<byte>, stream: seq<byte>)
    requires a <= b <= |l| && |field| == 4 && |stream| >= 2 && l[a..b] == field + stream
    ensures l[a + HeaderSkip..b] == stream[2..]
  {
    assert |l[a + HeaderSkip..b]| == |stream[2..]|;
    forall k | 0 <= k < |stream| - 2 ensures l[a + HeaderSkip..b][k] == stream[2..][k] {
      assert l[a + HeaderSkip..b][k] == l[a..b][HeaderSkip + k];
    }
  }

  /** A span that starts at a zlib stream's deflate data and reaches at least
      the end of that stream's record inflates to the chunk, whatever it holds
      beyond (the next record's first bytes, or zeros past the end of the
      file). */
  lemma SpanReadBack(l: seq<byte>, starts: seq<int>, i: nat, b: nat, chunk: seq<byte>,
                     z: Compressor, inflate: Decompressor)
    requires Laws(z, inflate) && i < |starts| && |z(chunk)| >= 2
    requires 0 <= starts[i] <= b <= |l| && l[starts[i]..b] == z(chunk)[2..]
    requires b - starts[i] <= SpanLength(|l|, starts, i)
    ensures ChunkOutput(l, starts, i, inflate) == Ok(chunk)
  {
    var a := starts[i];
    var span := Span(l, starts, i);
    var body := z(chunk)[2..];
    assert span[..b - a] == body by {
      forall k | 0 <= k < b - a ensures span[..b - a][k] == body[k] {
        assert body[k] == l[a..b][k];
      }
    }
    var rest := span[b - a..];
    assert span == body + rest;
    assert inflate(body + rest) == Some(chunk);
  }

  /** The buffer length of a chunk whose record runs from a to b: up to the
      next start, which is b plus the skip, or to the end of the file at b. */
  lemma SpanOfRecordLength(fileLength: nat, starts: seq<int>, i: nat, a: nat, b: nat)
    requires i < |starts| && a + HeaderSkip <= b < Two31 && starts[i] == a + HeaderSkip
    requires i + 1 < |starts| ==> starts[i + 1] == Wrap32(b + HeaderSkip)
    requires i + 1 == |starts| ==> fileLength == b
    ensures SpanLength(fileLength, starts, i) == if i + 1 < |starts| then b - a else b - a - HeaderSkip
  {
    if i + 1 < |starts| {
      assert starts[i + 1] - starts[i] == Wrap32(b + HeaderSkip) + -(a + HeaderSkip);
      Wrap32Add(b + HeaderSkip, -(a + HeaderSkip));
    }
  }

  /** The buffer length of a last chunk whose record, starting at a, ends less
      than the skip past a. */
  lemma ShortSpanLength(fileLength: nat, starts: seq<int>, a: nat)
    requires 0 < |starts| && fileLength < Two31 && a + 4 <= fileLength < a + HeaderSkip
    requires starts[|starts| - 1] == Wrap32(a + HeaderSkip)
    ensures SpanLength(fileLength, starts, |starts| - 1) == fileLength - a - HeaderSkip
  {
    Wrap32Sub(fileLength, a + HeaderSkip);
  }

  /** A record from a to b whose bytes past the skip are a zlib stream's
      deflate data, with the next start past the next record's skip or the
      end of the file at b, inflates to the chunk. */
  lemma RecordReadBack(l: seq<byte>, starts: seq<int>, i: nat, a: nat, b: nat, chunk: seq<byte>,
                       z: Compressor, inflate: Decompressor)
    requires Laws(z, inflate) && i < |starts| && |z(chunk)| >= 2
    requires a + HeaderSkip <= b <= |l| < Two31 && l[a + HeaderSkip..b] == z(chunk)[2..]
    requires starts[i] == Wrap32(a + HeaderSkip)
    requires i + 1 < |starts| ==> starts[i + 1] == Wrap32(b + HeaderSkip)
    requires i + 1 == |starts| ==> |l| == b
    ensures ChunkOutput(l, starts, i, inflate) == Ok(chunk)
  {
    SpanOfRecordLength(|l|, starts, i, a, b);
    SpanReadBack(l, starts, i, b, chunk, z, inflate);
  }

  /** A record from a to b in l: a size field and then the zlib stream,
      ending within l, with the stream's deflate data past the skip when the
      stream has its header. */
  predicate Placed(l: seq<byte>, a: nat, b: nat, stream: seq<byte>)
  {
    b == a + 4 + |stream| && b <= |l| &&
    (|stream| >= 2 ==> l[a + HeaderSkip..b] == stream[2..])
  }

  /** Record i of a laid-out container is placed at its offset. */
  lemma LayoutPlaced(chunks: seq<seq<byte>>, z: Compressor, i: nat)
    requires |chunks| <= TableCapacity && i < |chunks|
    ensures Placed(Layout(chunks, z), OffsetAt(chunks, z, i), OffsetAt(chunks, z, i + 1), z(chunks[i]))
  {
    LayoutRecord(chunks, z, i);
    OffsetRecurrence(chunks, z, i);
    if |z(chunks[i])| >= 2 {
      SpanOfRecord(chunks, z, i);
    }
  }

  /** The first m records, placed back to back at offsets offs with each
      start past its record's skip and every stream having its zlib header,
      decode to the first m chunks. */
  lemma LeadingRecords(l: seq<byte>, starts: seq<int>, offs: seq<nat>, chunks: seq<seq<byte>>,
                       z: Compressor, inflate: Decompressor, m: nat)
    requires Laws(z, inflate) && m < |chunks| && |l| < Two31
    requires |starts| == |chunks| && |offs| == |chunks| + 1
    requires forall i :: 0 <= i <= m ==> starts[i] == Wrap32(offs[i] + HeaderSkip)
    requires forall i :: 0 <= i < m ==> Placed(l, offs[i], offs[i + 1], z(chunks[i]))
    requires forall i :: 0 <= i < m ==> |z(chunks[i])| >= 2
    ensures DecodeChunks(l, starts, inflate, m) == Decoded(Flatten(chunks[..m]), None)
  {
    forall i | 0 <= i < m ensures ChunkOutput(l, starts, i, inflate) == Ok(chunks[i]) {
      assert Placed(l, offs[i], offs[i + 1], z(chunks[i]));
      RecordReadBack(l, starts, i, offs[i], offs[i + 1], chunks[i], z, inflate);
    }
    DecodeChunksOutputs(l, starts, inflate, chunks, m);
  }

  /** Decoding records placed back to back at offsets offs, to the end of
      the file, with each start past its record's skip, all streams but
      possibly the last having their zlib header: every chunk comes back in
      order, unless the last stream is shorter than a header, when the
      decoder stops there with a negative buffer length after all the
      others. */
  lemma DecodeRecords(l: seq<byte>, starts: seq<int>, offs: seq<nat>, chunks: seq<seq<byte>>,
                      z: Compressor, inflate: Decompressor)
    requires Laws(z, inflate) && 0 < |chunks| && |l| < Two31
    requires |starts| == |chunks| && |offs| == |chunks| + 1 && offs[|chunks|] == |l|
    requires forall i :: 0 <= i < |chunks| ==> starts[i] == Wrap32(offs[i] + HeaderSkip)
    requires forall i :: 0 <= i < |chunks| ==> Placed(l, offs[i], offs[i + 1], z(chunks[i]))
    requires forall i :: 0 <= i < |chunks| - 1 ==> |z(chunks[i])| >= 2
    ensures |z(chunks[|chunks| - 1])| >= 2 ==>
      DecodeChunks(l, starts, inflate, |chunks|) == Decoded(Flatten(chunks), None)
    ensures |z(chunks[|chunks| - 1])| < 2 ==>
      DecodeChunks(l, starts, inflate, |chunks|)
        == Decoded(Flatten(chunks[..|chunks| - 1]), Some(NegativeSpan(|chunks| - 1)))
  {
    var n := |chunks|;
    var m := n - 1;
    var stream := z(chunks[m]);
    assert starts[m] == Wrap32(offs[m] + HeaderSkip);
    assert Placed(l, offs[m], offs[n], stream);
    if |stream| >= 2 {
      RecordReadBack(l, starts, m, offs[m], offs[n], chunks[m], z, inflate);
    } else {
      ShortSpanLength(|l|, starts, offs[m]);
    }
    LeadingRecords(l, starts, offs, chunks, z, inflate, m);
    if |stream| >= 2 {
      ChunkSucceeds(l, starts, inflate, m, chunks[m]);
      FlattenStep(chunks, m);
      assert chunks[..m + 1] == chunks;
    } else {
      ChunkFails(l, starts, inflate, m, NegativeSpan(m));
    }
  }

  /** The record offsets of a laid-out container: each record is placed at
      its offset, the last ends the file, and the decoder's starts lie past
      each record's skip. */
  lemma LayoutOffsets(chunks: seq<seq<byte>>, z: Compressor) returns (offs: seq<nat>)
    requires 0 < |chunks| <= TableCapacity
    ensures |offs| == |chunks| + 1 && offs[|chunks|] == |Layout(chunks, z)|
    ensures |ReadAt(Layout(chunks, z), 4, 4 * |chunks|)| == 4 * |chunks|
    ensures forall i :: 0 <= i < |chunks| ==>
      Starts(ReadAt(Layout(chunks, z), 4, 4 * |chunks|), |chunks|)[i] == Wrap32(offs[i] + HeaderSkip)
    ensures forall i :: 0 <= i < |chunks| ==> Placed(Layout(chunks, z), offs[i], offs[i + 1], z(chunks[i]))
  {
    var n := |chunks|;
    offs := seq(n + 1, i requires 0 <= i <= n => OffsetAt(chunks, z, i));
    StartsReadBack(chunks, z);
    forall i | 0 <= i < n ensures Placed(Layout(chunks, z), offs[i], offs[i + 1], z(chunks[i])) {
      LayoutPlaced(chunks, z, i);
    }
    LayoutRecord(chunks, z, 0);
  }

  /** Decoding a laid-out container whose streams, all but possibly the last,
      have their zlib header: every chunk comes back in order, unless the
      last stream is shorter than a header, when the decoder stops there
      with a negative buffer length after all the others. */
  lemma DecodeLayout(chunks: seq<seq<byte>>, z: Compressor, inflate: Decompressor)
    requires Laws(z, inflate) && |chunks| <= TableCapacity
    requires |Layout(chunks, z)| < Two31
    requires forall i :: 0 <= i < |chunks| - 1 ==> |z(chunks[i])| >= 2
    ensures chunks == [] || |z(chunks[|chunks| - 1])| >= 2 ==>
      Decode(Layout(chunks, z), inflate) == Decoded(Flatten(chunks), None)
    ensures chunks != [] && |z(chunks[|chunks| - 1])| < 2 ==>
      Decode(Layout(chunks, z), inflate)
        == Decoded(Flatten(chunks[..|chunks| - 1]), Some(NegativeSpan(|chunks| - 1)))
  {
    CountReadBack(chunks, z);
    if chunks != [] {
      var n := |chunks|;
      var l := Layout(chunks, z);
      var starts := Starts(ReadAt(l, 4, 4 * n), n);
      var offs := LayoutOffsets(chunks, z);
      assert Decode(l, inflate) == DecodeChunks(l, starts, inflate, n);
      DecodeRecords(l, starts, offs, chunks, z, inflate);
    }
  }

  /** Chunks that are all non-empty except possibly the last: they come back
      in order, and an empty last chunk adds nothing; the decoder stops on
      it with a negative buffer length unless its stream has a header. */
  lemma DecodeNonEmptyChunks(chunks: seq<seq<byte>>, z: Compressor, inflate: Decompressor)
    requires Laws(z, inflate) && |chunks| <= TableCapacity
    requires |Layout(chunks, z)| < Two31
    requires forall i :: 0 <= i < |chunks| - 1 ==> chunks[i] != []
    ensures chunks == [] || chunks[|chunks| - 1] != [] ==>
      Decode(Layout(chunks, z), inflate) == Decoded(Flatten(chunks), None)
    ensures chunks != [] && chunks[|chunks| - 1] == [] ==>
      Decode(Layout(chunks, z), inflate)
        == Decoded(Flatten(chunks), if |z([])| >= 2 then None else Some(NegativeSpan(|chunks| - 1)))
  {
    forall i | 0 <= i < |chunks| - 1 ensures |z(chunks[i])| >= 2 {
      assert chunks[i] != [];
    }
    DecodeLayout(chunks, z, inflate);
    if chunks != [] {
      var m := |chunks| - 1;
      FlattenStep(chunks, m);
      assert chunks[..m + 1] == chunks;
    }
  }

  /** With chunks cut as intended, decoding the encoder's container gives
      back the input. */
  lemma RoundTrip(input: seq<byte>, z: Compressor, inflate: Decompressor)
    requires Laws(z, inflate) && |input| <= MaxInput
    requires |Layout(Chunks(input), z)| < Two31
    ensures Decode(Layout(Chunks(input), z), inflate) == Decoded(input, None)
  {
    var chunks := Chunks(input);
    forall i | 0 <= i < |chunks| ensures |z(chunks[i])| >= 2 {
      assert chunks[i] != [];
    }
    DecodeLayout(chunks, z, inflate);
    FlattenChunks(input);
  }

  /** The encoder as written: where the length is zero or not a multiple of
      ChunkSize, decoding its container gives back the input. Otherwise the
      last ChunkSize bytes are lost: the decoder returns the rest, and it
      stops with a negative buffer length on the empty last chunk unless
      the compressor wrote at least a zlib header for it. */
  lemma RoundTripAsWritten(input: seq<byte>, z: Compressor, inflate: Decompressor)
    requires Laws(z, inflate) && |input| <= MaxInput
    requires |Layout(ChunksAsWritten(input), z)| < Two31
    ensures var d := Decode(Layout(ChunksAsWritten(input), z), inflate);
      (|input| == 0 || |input| % ChunkSize != 0 ==> d == Decoded(input, None)) &&
      (|input| > 0 && |input| % ChunkSize == 0 ==>
         d == Decoded(input[..KeptLength(|input|)],
                      if |z([])| >= 2 then None else Some(NegativeSpan(ChunkCount(|input|) - 1)))) &&
      d.output == input[..KeptLength(|input|)] &&
      (d.output == input <==> |input| == 0 || |input| % ChunkSize != 0)
  {
    var chunks := ChunksAsWritten(input);
    FlattenChunksAsWritten(input);
    ChunksAsWrittenShape(input);
    DecodeNonEmptyChunks(chunks, z, inflate);
  }

  /** One full chunk of zeros: the encoder writes a single empty chunk, and
      with the stand-in codec, which writes nothing for it, the decoder
      returns nothing and stops with a negative buffer length. */
  lemma FullChunkIsLost()
    ensures var input := Zeros(ChunkSize);
      ChunksAsWritten(input) == [[]] &&
      Decode(Layout(ChunksAsWritten(input), StoredCompress), StoredInflate) == Decoded([], Some(NegativeSpan(0)))
  {
    var input := Zeros(ChunkSize);
    ChunkCountIsCeiling(ChunkSize);
    var chunks := ChunksAsWritten(input);
    assert chunks[0] == [];
    assert chunks == [[]];
    StoredCodecObeysLaws();
    LayoutRecord(chunks, StoredCompress, 0);
    RoundTripAsWritten(input, StoredCompress, StoredInflate);
  }
}
