/** The decoder: it reads the count and the offset table, moves each offset
    past the record's size field and zlib header, and inflates the bytes from
    each such start up to the next one (or up to the end of the file for the
    last chunk) as raw deflate, appending the results in index order. */
module Decoder {
  import opened Int32
  import opened Wrappers
  import opened Streams
  import opened Codec
  import opened Container

  /** The runtime exceptions that stop the decoder. */
  datatype DecodeError =
    | NegativeCount            // the count array is allocated with a negative length
    | TableOverflow            // `count * 4` leaves the int range, so the table cannot be read
    | NegativeSpan(index: nat) // a chunk's buffer is allocated with a negative length
    | NegativeSeek(index: nat) // a chunk's start is before the beginning of the file
    | CorruptStream(index: nat) // a chunk's bytes are not a deflate stream
  {
    /** The error belongs to one chunk. */
    predicate AtChunk() {
      NegativeSpan? || NegativeSeek? || CorruptStream?
    }
  }

  /** What the decoder leaves behind: the output written so far and, when it
      stopped early, the reason. */
  datatype Decoded = Decoded(output: seq<byte>, failure: Option<DecodeError>)

  /** The largest count whose table size `count * 4` is an int. */
  const MaxCount: nat := 0x1FFF_FFFF

  /** The start of each chunk's deflate data: its table entry plus the skip,
      in int arithmetic. */
  function Starts(table: seq<byte>, count: nat): (r: seq<int>)
    requires |table| == 4 * count
    ensures |r| == count
    ensures forall i :: 0 <= i < count ==> r[i] == Wrap32(ToInt32(table, 4 * i) + HeaderSkip)
  {
    seq(count, i requires 0 <= i < count => Wrap32(ToInt32(table, 4 * i) + HeaderSkip))
  }

  /** The length of chunk i's buffer: up to the next start, or for the last
      chunk up to the end of the file, in int arithmetic. Without wrap-around
      the span ends exactly there. */
  function SpanLength(fileLength: nat, starts: seq<int>, i: nat): (r: int)
    requires i < |starts|
    ensures -Two31 <= r < Two31
    ensures i + 1 < |starts| && -Two31 <= starts[i + 1] - starts[i] < Two31 ==>
      starts[i] + r == starts[i + 1]
    ensures i + 1 == |starts| && fileLength < Two31 && -Two31 <= fileLength - starts[i] < Two31 ==>
      starts[i] + r == fileLength
  {
    if i != |starts| - 1 then Wrap32(starts[i + 1] - starts[i])
    else Wrap32(Wrap32(fileLength) - starts[i])
  }

  /** The bytes read for chunk i: the file from its start on, zero-filled past
      the end of the file. */
  function Span(c: seq<byte>, starts: seq<int>, i: nat): (r: seq<byte>)
    requires i < |starts| && 0 <= starts[i] && 0 <= SpanLength(|c|, starts, i)
    ensures |r| == SpanLength(|c|, starts, i)
  {
    ReadAt(c, starts[i], SpanLength(|c|, starts, i))
  }

  /** What chunk i contributes, or why the decoder stops there. */
  function ChunkOutput(c: seq<byte>, starts: seq<int>, i: nat, inflate: Decompressor): (r: Result<seq<byte>, DecodeError>)
    requires i < |starts|
    ensures r.Err? ==> r.error.AtChunk() && r.error.index == i
    ensures r.Err? <==>
      SpanLength(|c|, starts, i) < 0 || starts[i] < 0 || inflate(Span(c, starts, i)).None?
    ensures r.Ok? ==> Some(r.value) == inflate(Span(c, starts, i))
  {
    var len := SpanLength(|c|, starts, i);
    if len < 0 then Err(NegativeSpan(i))
    else if starts[i] < 0 then Err(NegativeSeek(i))
    else match inflate(Span(c, starts, i))
      case None => Err(CorruptStream(i))
      case Some(s) => Ok(s)
  }

  /** Which error chunk i stops with: a negative buffer length is checked
      first, then a negative start, then a failed inflate. */
  lemma ChunkErrors(c: seq<byte>, starts: seq<int>, i: nat, inflate: Decompressor)
    requires i < |starts|
    ensures ChunkOutput(c, starts, i, inflate) == Err(NegativeSpan(i)) <==> SpanLength(|c|, starts, i) < 0
    ensures ChunkOutput(c, starts, i, inflate) == Err(NegativeSeek(i)) <==>
      0 <= SpanLength(|c|, starts, i) && starts[i] < 0
    ensures ChunkOutput(c, starts, i, inflate) == Err(CorruptStream(i)) <==>
      0 <= SpanLength(|c|, starts, i) && 0 <= starts[i] && inflate(Span(c, starts, i)).None?
  {
  }

  /** The state after the first k chunks. */
  function DecodeChunks(c: seq<byte>, starts: seq<int>, inflate: Decompressor, k: nat): (r: Decoded)
    requires k <= |starts|
    ensures r.failure.Some? ==> r.failure.value.AtChunk() && r.failure.value.index < k
  {
    if k == 0 then Decoded([], None)
    else
      var prev := DecodeChunks(c, starts, inflate, k - 1);
      if prev.failure.Some? then prev
      else match ChunkOutput(c, starts, k - 1, inflate)
        case Err(e) => Decoded(prev.output, Some(e))
        case Ok(s) => Decoded(prev.output + s, None)
  }

  /** The decoder's result for a container: the count from bytes [0, 4), the
      table from the 4 * count bytes after it, then the chunks in order. */
  function Decode(c: seq<byte>, inflate: Decompressor): (r: Decoded)
    ensures r.failure == Some(NegativeCount) <==> ToInt32(ReadAt(c, 0, 4), 0) < 0
    ensures r.failure == Some(TableOverflow) <==> ToInt32(ReadAt(c, 0, 4), 0) > MaxCount
    ensures r.failure.Some? && r.failure.value.AtChunk() ==>
      r.failure.value.index < ToInt32(ReadAt(c, 0, 4), 0)
  {
    var count := ToInt32(ReadAt(c, 0, 4), 0);
    if count < 0 then Decoded([], Some(NegativeCount))
    else if count > MaxCount then Decoded([], Some(TableOverflow))
    else DecodeChunks(c, Starts(ReadAt(c, 4, 4 * count), count), inflate, count)
  }

  /** Once the decoder has stopped, later chunks change nothing. */
  lemma {:induction false} FailurePersists(c: seq<byte>, starts: seq<int>, inflate: Decompressor, j: nat, k: nat)
    requires j <= k <= |starts| && DecodeChunks(c, starts, inflate, j).failure.Some?
    ensures DecodeChunks(c, starts, inflate, k) == DecodeChunks(c, starts, inflate, j)
    decreases k
  {
    if j < k {
      FailurePersists(c, starts, inflate, j, k - 1);
    }
  }

  /** The output only ever grows: what the first j chunks wrote stays at the
      front. */
  lemma {:induction false} OutputGrows(c: seq<byte>, starts: seq<int>, inflate: Decompressor, j: nat, k: nat)
    requires j <= k <= |starts|
    ensures DecodeChunks(c, starts, inflate, j).output <= DecodeChunks(c, starts, inflate, k).output
    decreases k
  {
    if j < k {
      OutputGrows(c, starts, inflate, j, k - 1);
      var prev := DecodeChunks(c, starts, inflate, k - 1);
      if prev.failure.None? && ChunkOutput(c, starts, k - 1, inflate).Ok? {
        var s := ChunkOutput(c, starts, k - 1, inflate).value;
        assert DecodeChunks(c, starts, inflate, k).output == prev.output + s;
      }
    }
  }

  /** Decoding the first k chunks succeeds exactly when every one of them
      inflates, and it then yields their outputs in index order. */
  lemma {:induction false} DecodeChunksSucceeds(c: seq<byte>, starts: seq<int>, inflate: Decompressor, k: nat)
    requires k <= |starts|
    ensures DecodeChunks(c, starts, inflate, k).failure.None? <==>
      forall i :: 0 <= i < k ==> ChunkOutput(c, starts, i, inflate).Ok?
    decreases k
  {
    if k > 0 {
      DecodeChunksSucceeds(c, starts, inflate, k - 1);
      if DecodeChunks(c, starts, inflate, k - 1).failure.Some? {
        var i :| 0 <= i < k - 1 && ChunkOutput(c, starts, i, inflate).Err?;
        assert !ChunkOutput(c, starts, i, inflate).Ok?;
      }
    }
  }

  /** When chunk i inflates to outputs[i] for every i below k, decoding the
      first k chunks yields those outputs one after the other. */
  lemma {:induction false} DecodeChunksOutputs(c: seq<byte>, starts: seq<int>, inflate: Decompressor,
                                               outputs: seq<seq<byte>>, k: nat)
    requires k <= |starts| && k <= |outputs|
    requires forall i :: 0 <= i < k ==> ChunkOutput(c, starts, i, inflate) == Ok(outputs[i])
    ensures DecodeChunks(c, starts, inflate, k) == Decoded(Flatten(outputs[..k]), None)
    decreases k
  {
    if k == 0 {
      assert outputs[..0] == [];
    } else {
      DecodeChunksOutputs(c, starts, inflate, outputs, k - 1);
      FlattenStep(outputs, k - 1);
    }
  }

  /** The decoder stops at the first chunk that fails, keeping the output of
      the chunks before it. */
  lemma FirstFailure(c: seq<byte>, starts: seq<int>, inflate: Decompressor, i: nat)
    requires i < |starts| && ChunkOutput(c, starts, i, inflate).Err?
    requires forall j :: 0 <= j < i ==> ChunkOutput(c, starts, j, inflate).Ok?
    ensures DecodeChunks(c, starts, inflate, |starts|)
      == Decoded(DecodeChunks(c, starts, inflate, i).output, Some(ChunkOutput(c, starts, i, inflate).error))
  {
    DecodeChunksSucceeds(c, starts, inflate, i);
    FailurePersists(c, starts, inflate, i + 1, |starts|);
  }

  // Tiling: non-decreasing starts inside the file cut it into consecutive
  // spans.

  /** Starts that never decrease and lie within a file shorter than 2^31. */
  predicate InFile(fileLength: nat, starts: seq<int>)
  {
    fileLength < Two31 && 0 < |starts| && 0 <= starts[0] && starts[|starts| - 1] <= fileLength &&
    forall i, j :: 0 <= i <= j < |starts| ==> starts[i] <= starts[j]
  }

  /** Where span i ends: the next start, or the end of the file. */
  function SpanEnd(fileLength: nat, starts: seq<int>, i: nat): (r: int)
    requires i < |starts|
  {
    if i + 1 < |starts| then starts[i + 1] else fileLength
  }

  lemma SpanInFile(c: seq<byte>, starts: seq<int>, i: nat)
    requires InFile(|c|, starts) && i < |starts|
    ensures 0 <= starts[i] <= SpanEnd(|c|, starts, i) <= |c|
    ensures SpanLength(|c|, starts, i) == SpanEnd(|c|, starts, i) - starts[i]
    ensures Span(c, starts, i) == c[starts[i]..SpanEnd(|c|, starts, i)]
  {
    var n := |starts|;
    assert starts[0] <= starts[i] <= starts[n - 1];
    if i + 1 < n {
      assert starts[i] <= starts[i + 1] <= starts[n - 1];
    }
  }

  /** The spans of the first k chunks, one after the other. */
  function Tiles(c: seq<byte>, starts: seq<int>, k: nat): (r: seq<byte>)
    requires InFile(|c|, starts) && k <= |starts|
  {
    if k == 0 then []
    else
      SpanInFile(c, starts, k - 1);
      Tiles(c, starts, k - 1) + Span(c, starts, k - 1)
  }

  /** The spans tile the file from the first start on, in index order, with no
      gap and no overlap. */
  lemma {:induction false} Tiling(c: seq<byte>, starts: seq<int>, k: nat)
    requires InFile(|c|, starts) && 0 < k <= |starts|
    ensures Tiles(c, starts, k) == c[starts[0]..SpanEnd(|c|, starts, k - 1)]
    decreases k
  {
    SpanInFile(c, starts, k - 1);
    if k == 1 {
      assert Tiles(c, starts, 0) == [];
    } else {
      Tiling(c, starts, k - 1);
      SpanInFile(c, starts, k - 2);
      assert c[starts[0]..starts[k - 1]] + c[starts[k - 1]..SpanEnd(|c|, starts, k - 1)]
          == c[starts[0]..SpanEnd(|c|, starts, k - 1)];
    }
  }

  /** The decoder, step by step: it reads the count and the table, fills the
      array of starts, then decodes the chunks. */
  method Decompress(container: seq<byte>, inflate: Decompressor) returns (r: Decoded)
    ensures r == Decode(container, inflate)
  {
    var fsIn := new ByteStream(container);
    var countBytes := fsIn.Read(4);
    var count := ToInt32(countBytes, 0);
    if count < 0 {
      return Decoded([], Some(NegativeCount));
    }
    if count > MaxCount {
      // `count * 4` is negative, or it wraps to a table too short for the
      // entry loop: either way the runtime throws before any output.
      return Decoded([], Some(TableOverflow));
    }
    var offsets := new int[count];
    fsIn.Seek(4);
    var table := fsIn.Read(count * 4);
    FillStarts(offsets, table);
    r := DecompressChunks(fsIn, offsets, inflate);
  }

  /** The table loop: each entry plus the skip. */
  method FillStarts(offsets: array<int>, table: seq<byte>)
    requires |table| == 4 * offsets.Length
    modifies offsets
    ensures offsets[..] == Starts(table, offsets.Length)
  {
    for i := 0 to offsets.Length
      invariant forall j :: 0 <= j < i ==> offsets[j] == Starts(table, offsets.Length)[j]
    {
      offsets[i] := Wrap32(ToInt32(table, i * 4) + HeaderSkip);
    }
  }

  /** The chunk loop: the chunks are decoded in index order until one
      fails. */
  method DecompressChunks(fsIn: ByteStream, offsets: array<int>, inflate: Decompressor) returns (r: Decoded)
    modifies fsIn
    ensures fsIn.data == old(fsIn.data)
    ensures r == DecodeChunks(fsIn.data, offsets[..], inflate, offsets.Length)
  {
    ghost var starts := offsets[..];
    ghost var c := fsIn.data;
    var fsOut := new ByteStream([]);
    for i := 0 to offsets.Length
      invariant fsIn.data == c && fsOut.position == |fsOut.data|
      invariant DecodeChunks(c, starts, inflate, i) == Decoded(fsOut.data, None)
    {
      ghost var before := fsOut.data;
      var failure := DecompressChunk(fsIn, fsOut, offsets, i, inflate);
      if failure.Some? {
        ChunkFails(c, starts, inflate, i, failure.value);
        return Decoded(fsOut.data, failure);
      }
      ChunkSucceeds(c, starts, inflate, i, fsOut.data[|before|..]);
    }
    return Decoded(fsOut.data, None);
  }

  /** One pass of the chunk loop: the span length is computed, the input is
      positioned at the start, the span is read into a buffer, and the buffer
      is inflated and appended to the output stream. */
  method DecompressChunk(fsIn: ByteStream, fsOut: ByteStream, offsets: array<int>, i: nat, inflate: Decompressor)
      returns (failure: Option<DecodeError>)
    requires fsIn != fsOut && i < offsets.Length && fsOut.position == |fsOut.data|
    modifies fsIn, fsOut
    ensures fsIn.data == old(fsIn.data) && fsOut.position == |fsOut.data|
    ensures match ChunkOutput(fsIn.data, offsets[..], i, inflate)
      case Err(e) => failure == Some(e) && fsOut.data == old(fsOut.data)
      case Ok(s) => failure == None && fsOut.data == old(fsOut.data) + s
  {
    ghost var starts := offsets[..];
    ghost var c := fsIn.data;
    var count := offsets.Length;
    var len := 0;
    if i != count - 1 {
      len := Wrap32(offsets[i + 1] - offsets[i]);
    } else {
      len := Wrap32(Wrap32(|fsIn.data|) - offsets[i]);
    }
    assert len == SpanLength(|c|, starts, i);
    if len < 0 {
      return Some(NegativeSpan(i));
    }
    if offsets[i] < 0 {
      return Some(NegativeSeek(i));
    }
    fsIn.Seek(offsets[i]);
    var buff := fsIn.Read(len);
    assert buff == Span(c, starts, i);
    var inflated := inflate(buff);
    if inflated.None? {
      return Some(CorruptStream(i));
    }
    WriteAtEnd(fsOut.data, inflated.value);
    fsOut.Write(inflated.value);
    return None;
  }

  /** A chunk that inflates adds its output. */
  lemma ChunkSucceeds(c: seq<byte>, starts: seq<int>, inflate: Decompressor, i: nat, s: seq<byte>)
    requires i < |starts| && DecodeChunks(c, starts, inflate, i).failure.None?
    requires ChunkOutput(c, starts, i, inflate) == Ok(s)
    ensures DecodeChunks(c, starts, inflate, i + 1)
      == Decoded(DecodeChunks(c, starts, inflate, i).output + s, None)
  {
  }

  /** A chunk that fails ends the decoding with the output so far. */
  lemma ChunkFails(c: seq<byte>, starts: seq<int>, inflate: Decompressor, i: nat, e: DecodeError)
    requires i < |starts| && DecodeChunks(c, starts, inflate, i).failure.None?
    requires ChunkOutput(c, starts, i, inflate) == Err(e)
    ensures DecodeChunks(c, starts, inflate, |starts|)
      == Decoded(DecodeChunks(c, starts, inflate, i).output, Some(e))
  {
    FailurePersists(c, starts, inflate, i + 1, |starts|);
  }
}
