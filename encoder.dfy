/** The encoder: it cuts the input into ChunkSize-byte chunks, writes the
    count, then each chunk's record from DataStart on, remembering where each
    record starts, and finally goes back to fill in the offset table. */
module Encoder {
  import opened Int32
  import opened Streams
  import opened Codec
  import opened Container

  /** The size the encoder gives chunk i of an n-byte input: a full chunk,
      except that the last one gets `n % 0x20000`. */
  function SizeAsWritten(n: nat, i: nat): (r: nat)
    requires n <= MaxInput && i < ChunkCount(n)
    ensures r <= ChunkSize
    ensures i * ChunkSize + r <= n
  {
    if i == ChunkCount(n) - 1 then n % ChunkSize else ChunkSize
  }

  /** The chunks the encoder reads, in order and each right after the one
      before it. */
  function ChunksAsWritten(input: seq<byte>): (r: seq<seq<byte>>)
    requires |input| <= MaxInput
    ensures |r| == ChunkCount(|input|)
    ensures forall i :: 0 <= i < |r| ==>
      r[i] == input[i * ChunkSize..i * ChunkSize + SizeAsWritten(|input|, i)]
  {
    var n := |input|;
    seq(ChunkCount(n), i requires 0 <= i < ChunkCount(n) =>
      input[i * ChunkSize..i * ChunkSize + SizeAsWritten(n, i)])
  }

  /** The size chunk i should have: full, except that the last one holds
      whatever is left, between 1 and ChunkSize bytes. */
  function ChunkLength(n: nat, i: nat): (r: nat)
    requires n <= MaxInput && i < ChunkCount(n)
    ensures 0 < r <= ChunkSize
    ensures i * ChunkSize + r <= n
    ensures i + 1 == ChunkCount(n) ==> i * ChunkSize + r == n
  {
    if i == ChunkCount(n) - 1 then n - i * ChunkSize else ChunkSize
  }

  /** The chunks the encoder should read: consecutive slices that cover the
      whole input. */
  function Chunks(input: seq<byte>): (r: seq<seq<byte>>)
    requires |input| <= MaxInput
    ensures |r| == ChunkCount(|input|)
    ensures forall i :: 0 <= i < |r| ==>
      r[i] == input[i * ChunkSize..i * ChunkSize + ChunkLength(|input|, i)]
  {
    var n := |input|;
    seq(ChunkCount(n), i requires 0 <= i < ChunkCount(n) =>
      input[i * ChunkSize..i * ChunkSize + ChunkLength(n, i)])
  }

  /** Every chunk but the last is full; so is the last one unless the
      length is not a multiple of ChunkSize, when it holds the remainder. */
  lemma SizesAsWritten(n: nat, i: nat)
    requires n <= MaxInput && i < ChunkCount(n)
    ensures i + 1 < ChunkCount(n) ==> SizeAsWritten(n, i) == ChunkSize
    ensures i + 1 == ChunkCount(n) ==>
      (SizeAsWritten(n, i) == 0 <==> n % ChunkSize == 0)
    ensures SizeAsWritten(n, i) == ChunkLength(n, i) <==> (i + 1 < ChunkCount(n) || n % ChunkSize != 0)
  {
    var c := ChunkCount(n);
    if i + 1 == c {
      assert n == (n / ChunkSize) * ChunkSize + n % ChunkSize;
      assert n / ChunkSize <= c;
      if n % ChunkSize == 0 {
        assert c == n / ChunkSize;
      } else {
        assert c == n / ChunkSize + 1;
      }
    }
  }

  /** Full chunks laid end to end give the input's prefix. */
  lemma {:induction false} FlattenFull(input: seq<byte>, chunks: seq<seq<byte>>, k: nat)
    requires k <= |chunks| && k * ChunkSize <= |input|
    requires forall i :: 0 <= i < k ==> chunks[i] == input[i * ChunkSize..(i + 1) * ChunkSize]
    ensures Flatten(chunks[..k]) == input[..k * ChunkSize]
    decreases k
  {
    if k == 0 {
      assert chunks[..0] == [];
    } else {
      var m := k - 1;
      FlattenFull(input, chunks, m);
      FlattenStep(chunks, m);
      SliceJoin(input, 0, m * ChunkSize, k * ChunkSize);
    }
  }

  /** Consecutive chunks, all full but the last, cover the input up to the
      end of the last one. */
  lemma FlattenConsecutive(input: seq<byte>, chunks: seq<seq<byte>>, last: nat)
    requires 0 < |chunks| && (|chunks| - 1) * ChunkSize + last <= |input|
    requires forall i :: 0 <= i < |chunks| - 1 ==> chunks[i] == input[i * ChunkSize..(i + 1) * ChunkSize]
    requires chunks[|chunks| - 1] == input[(|chunks| - 1) * ChunkSize..(|chunks| - 1) * ChunkSize + last]
    ensures Flatten(chunks) == input[..(|chunks| - 1) * ChunkSize + last]
  {
    var m := |chunks| - 1;
    FlattenFull(input, chunks, m);
    FlattenStep(chunks, m);
    assert chunks[..m + 1] == chunks;
    SliceJoin(input, 0, m * ChunkSize, m * ChunkSize + last);
  }

  /** The intended chunks reassemble the input exactly. */
  lemma FlattenChunks(input: seq<byte>)
    requires |input| <= MaxInput
    ensures Flatten(Chunks(input)) == input
  {
    var n := |input|;
    var chunks := Chunks(input);
    ChunkCountIsCeiling(n);
    if n == 0 {
      assert chunks == [];
    } else {
      var m := |chunks| - 1;
      forall i | 0 <= i < m ensures chunks[i] == input[i * ChunkSize..(i + 1) * ChunkSize] {
      }
      FlattenConsecutive(input, chunks, ChunkLength(n, m));
      assert input[..n] == input;
    }
  }

  /** How many leading input bytes the encoder as written keeps: all of them,
      except that a length that is a positive multiple of ChunkSize loses its
      last ChunkSize bytes. */
  function KeptLength(n: nat): (r: nat)
    ensures r <= n
    ensures r == n <==> (n == 0 || n % ChunkSize != 0)
    ensures r != n ==> r + ChunkSize == n
  {
    if n > 0 && n % ChunkSize == 0 then n - ChunkSize else n
  }

  /** The chunks the encoder reads reassemble the input exactly when its length
      is zero or not a multiple of ChunkSize; otherwise the last ChunkSize
      bytes are missing. */
  lemma FlattenChunksAsWritten(input: seq<byte>)
    requires |input| <= MaxInput
    ensures Flatten(ChunksAsWritten(input)) == input[..KeptLength(|input|)]
    ensures Flatten(ChunksAsWritten(input)) == input <==>
      (|input| == 0 || |input| % ChunkSize != 0)
  {
    var n := |input|;
    var chunks := ChunksAsWritten(input);
    ChunkCountIsCeiling(n);
    if n == 0 {
      assert chunks == [];
    } else {
      var m := |chunks| - 1;
      forall i | 0 <= i < m ensures chunks[i] == input[i * ChunkSize..(i + 1) * ChunkSize] {
        SizesAsWritten(n, i);
      }
      SizesAsWritten(n, m);
      FlattenConsecutive(input, chunks, SizeAsWritten(n, m));
      if n % ChunkSize == 0 {
        assert m * ChunkSize == n - ChunkSize;
      } else {
        assert m * ChunkSize + SizeAsWritten(n, m) == n;
        assert input[..n] == input;
      }
    }
  }

  /** The chunks the encoder reads are all full but the last, and the last
      is empty exactly when the length is a positive multiple of ChunkSize. */
  lemma ChunksAsWrittenShape(input: seq<byte>)
    requires |input| <= MaxInput
    ensures var chunks := ChunksAsWritten(input);
      (forall i :: 0 <= i < |chunks| - 1 ==> |chunks[i]| == ChunkSize) &&
      (|input| == 0 <==> chunks == []) &&
      (|input| > 0 ==> (chunks[|chunks| - 1] == [] <==> |input| % ChunkSize == 0))
  {
    var n := |input|;
    var chunks := ChunksAsWritten(input);
    ChunkCountIsCeiling(n);
    forall i | 0 <= i < |chunks| - 1 ensures |chunks[i]| == ChunkSize {
      SizesAsWritten(n, i);
    }
    if n > 0 {
      SizesAsWritten(n, |chunks| - 1);
    }
  }

  /** A 300000-byte input: three chunks of 0x20000, 0x20000 and 37856 bytes,
      which together are the whole input. */
  lemma ThreeChunks(input: seq<byte>)
    requires |input| == 300000
    ensures ChunkCount(|input|) == 3
    ensures SizeAsWritten(|input|, 0) == ChunkSize && SizeAsWritten(|input|, 1) == ChunkSize
    ensures SizeAsWritten(|input|, 2) == 37856
    ensures Flatten(ChunksAsWritten(input)) == input
  {
    ChunkCountIsCeiling(|input|);
    FlattenChunksAsWritten(input);
  }

  /** Where the length is zero or not a multiple of ChunkSize, the encoder
      reads the intended chunks. */
  lemma ChunksAsWrittenAgree(input: seq<byte>)
    requires |input| <= MaxInput
    requires |input| == 0 || |input| % ChunkSize != 0
    ensures ChunksAsWritten(input) == Chunks(input)
  {
    var n := |input|;
    forall i | 0 <= i < ChunkCount(n) ensures ChunksAsWritten(input)[i] == Chunks(input)[i] {
      SizesAsWritten(n, i);
    }
  }

  /** The output stream while the records are written: the count, the
      untouched table area, and the records so far. */
  function RecordsWritten(chunks: seq<seq<byte>>, z: Compressor, i: nat): (r: seq<byte>)
    requires |chunks| <= TableCapacity && i <= |chunks|
  {
    if i == 0 then LE32(|chunks|) else LE32(|chunks|) + Zeros(DataStart - 4) + Records(chunks[..i], z)
  }

  lemma Regroup(a: seq<byte>, b: seq<byte>, c: seq<byte>, d: seq<byte>)
    ensures a + b + c + d == a + (b + (c + d))
  {
  }

  /** Writing chunk i's size field and zlib stream at its offset adds its
      record. */
  lemma WriteRecord(chunks: seq<seq<byte>>, z: Compressor, i: nat)
    requires 0 < |chunks| <= TableCapacity && i < |chunks|
    ensures OffsetAt(chunks, z, i + 1) == OffsetAt(chunks, z, i) + 4 + |z(chunks[i])|
    ensures WriteAt(WriteAt(RecordsWritten(chunks, z, i), OffsetAt(chunks, z, i), LE32(|chunks[i]|)),
                    OffsetAt(chunks, z, i) + 4, z(chunks[i]))
         == RecordsWritten(chunks, z, i + 1)
  {
    var before := RecordsWritten(chunks, z, i);
    var size, zc := LE32(|chunks[i]|), z(chunks[i]);
    var head := LE32(|chunks|);
    OffsetRecurrence(chunks, z, i);
    RecordsStep(chunks, z, i);
    var mid := WriteAt(before, OffsetAt(chunks, z, i), size);
    if i == 0 {
      assert chunks[..0] == [];
      WritePastEnd(before, DataStart, size);
      assert mid == head + Zeros(DataStart - 4) + size;
      WriteAtEnd(mid, zc);
      Regroup(head, Zeros(DataStart - 4), size, zc);
      assert Records(chunks[..1], z) == size + zc;
    } else {
      var done := Records(chunks[..i], z);
      WriteAtEnd(before, size);
      assert mid == head + Zeros(DataStart - 4) + done + size;
      WriteAtEnd(mid, zc);
      Regroup(head + Zeros(DataStart - 4), done, size, zc);
    }
  }

  /** The output stream while the table is filled in. */
  function TableWritten(chunks: seq<seq<byte>>, z: Compressor, i: nat): (r: seq<byte>)
    requires 0 < |chunks| <= TableCapacity && i <= |chunks|
  {
    LE32(|chunks|) + Table(Offsets(chunks, z)[..i]) + Zeros(DataStart - 4 - 4 * i) + Records(chunks, z)
  }

  /** Once the records are written, the table area is still all zeros. */
  lemma TableStart(chunks: seq<seq<byte>>, z: Compressor)
    requires 0 < |chunks| <= TableCapacity
    ensures RecordsWritten(chunks, z, |chunks|) == TableWritten(chunks, z, 0)
  {
    assert chunks[..|chunks|] == chunks;
    assert Offsets(chunks, z)[..0] == [];
  }

  /** Writing entry i over the zeros after the first i entries extends the
      table; any value with the same four bytes as the offset will do, such as
      the offset wrapped to an int. */
  lemma WriteTableEntry(chunks: seq<seq<byte>>, z: Compressor, i: nat, entry: int)
    requires 0 < |chunks| <= TableCapacity && i < |chunks|
    requires LE32(entry) == LE32(Offsets(chunks, z)[i])
    ensures WriteAt(TableWritten(chunks, z, i), 4 + 4 * i, LE32(entry)) == TableWritten(chunks, z, i + 1)
  {
    var offs := Offsets(chunks, z);
    var front := LE32(|chunks|) + Table(offs[..i]);
    TableStep(offs, i);
    WriteOverZeros(front, DataStart - 4 - 4 * i, Records(chunks, z), LE32(offs[i]));
  }

  /** With the whole table in place the stream is the container layout. */
  lemma TableEnd(chunks: seq<seq<byte>>, z: Compressor)
    requires 0 < |chunks| <= TableCapacity
    ensures TableWritten(chunks, z, |chunks|) == Layout(chunks, z)
  {
    assert Offsets(chunks, z)[..|chunks|] == Offsets(chunks, z);
  }

  /** Positions as the encoder remembers them: `(int)` of the stream
      position. */
  function Wrapped(positions: seq<nat>): (r: seq<int>)
    ensures |r| == |positions|
  {
    seq(|positions|, i requires 0 <= i < |positions| => Wrap32(positions[i]))
  }

  /** A wrapped position is written as the same four bytes. */
  lemma WrappedBytes(positions: seq<nat>)
    ensures forall i :: 0 <= i < |positions| ==> LE32(Wrapped(positions)[i]) == LE32(positions[i])
  {
    forall i | 0 <= i < |positions| ensures LE32(Wrapped(positions)[i]) == LE32(positions[i]) {
      LE32OfWrap32(positions[i]);
    }
  }

  lemma WrappedStep(positions: seq<nat>, i: nat)
    requires i < |positions|
    ensures Wrapped(positions[..i + 1]) == Wrapped(positions[..i]) + [Wrap32(positions[i])]
  {
  }

  /** One pass of the chunk loop, given the state before it: the stream has
      the records of the chunks before i and, for a chunk that is not the
      last, the input cursor moves to the next chunk. */
  lemma ChunkStep(input: seq<byte>, z: Compressor, i: nat, size: nat)
    requires |input| <= MaxInput && i < ChunkCount(|input|)
    requires size == SizeAsWritten(|input|, i)
    ensures var chunks := ChunksAsWritten(input);
      var pos := OffsetAt(chunks, z, i);
      var chunk := ReadAt(input, i * ChunkSize, size);
      chunk == chunks[i] &&
      pos + 4 + |z(chunk)| == OffsetAt(chunks, z, i + 1) &&
      WriteAt(WriteAt(RecordsWritten(chunks, z, i), pos, LE32(size)), pos + 4, z(chunk))
        == RecordsWritten(chunks, z, i + 1)
    ensures i + 1 < ChunkCount(|input|) ==>
      i * ChunkSize + Available(|input|, i * ChunkSize, size) == (i + 1) * ChunkSize
  {
    ReadInside(input, i * ChunkSize, size);
    WriteRecord(ChunksAsWritten(input), z, i);
    if i + 1 < ChunkCount(|input|) {
      SizesAsWritten(|input|, i);
    }
  }

  /** The encoder, step by step: the output stream gets the count, then has its
      cursor moved to DataStart; the records are written; finally the cursor
      goes back to byte 4 and the remembered positions are written as the
      table. */
  method Compress(input: seq<byte>, z: Compressor) returns (container: seq<byte>)
    requires |input| <= MaxInput
    ensures container == Layout(ChunksAsWritten(input), z)
  {
    var fsi := new ByteStream(input);
    var fso := new ByteStream([]);
    var count := ChunkCount(|input|);
    fso.Write(LE32(count));
    fso.Seek(DataStart);
    var offsets := WriteChunks(fsi, fso, z);
    ghost var chunks := ChunksAsWritten(input);
    fso.Seek(4);
    // With no chunks the table loop has nothing to write.
    if count > 0 {
      TableStart(chunks, z);
      WrappedBytes(Offsets(chunks, z));
      WriteTable(fso, chunks, z, offsets);
      TableEnd(chunks, z);
    }
    container := fso.data;
  }

  /** The chunk loop: for each chunk the output position is remembered, the
      size field is written, and the chunk is read from the input and written
      as a zlib stream. */
  method WriteChunks(fsi: ByteStream, fso: ByteStream, z: Compressor) returns (offsets: seq<int>)
    requires fsi != fso && fsi.position == 0 && |fsi.data| <= MaxInput
    requires fso.data == LE32(ChunkCount(|fsi.data|)) && fso.position == DataStart
    modifies fsi, fso
    ensures fsi.data == old(fsi.data)
    ensures fso.data == RecordsWritten(ChunksAsWritten(fsi.data), z, ChunkCount(|fsi.data|))
    ensures offsets == Wrapped(Offsets(ChunksAsWritten(fsi.data), z))
  {
    ghost var input := fsi.data;
    ghost var chunks := ChunksAsWritten(input);
    ghost var offs := Offsets(chunks, z);
    var n := |fsi.data|;
    var count := ChunkCount(n);
    offsets := [];
    assert offs[..0] == [];
    for i := 0 to count
      invariant fsi.data == input && (i < count ==> fsi.position == i * ChunkSize)
      invariant offsets == Wrapped(offs[..i])
      invariant fso.position == OffsetAt(chunks, z, i)
      invariant fso.data == RecordsWritten(chunks, z, i)
    {
      WrappedStep(offs, i);
      offsets := offsets + [Wrap32(fso.position)];
      var size := ChunkSize;
      if i == count - 1 {
        size := n % ChunkSize;
      }
      ChunkStep(input, z, i, size);
      fso.Write(LE32(size));
      var decompdata := fsi.Read(size);
      fso.Write(z(decompdata));
    }
    assert offs[..count] == offs;
  }

  /** The table loop: the remembered positions are written from byte 4 on. */
  method WriteTable(fso: ByteStream, ghost chunks: seq<seq<byte>>, z: Compressor, offsets: seq<int>)
    requires 0 < |chunks| <= TableCapacity && |offsets| == |chunks|
    requires forall j :: 0 <= j < |offsets| ==> LE32(offsets[j]) == LE32(Offsets(chunks, z)[j])
    requires fso.position == 4
    requires fso.data == TableWritten(chunks, z, 0)
    modifies fso
    ensures fso.data == TableWritten(chunks, z, |chunks|)
  {
    for i := 0 to |offsets|
      invariant fso.position == 4 + 4 * i
      invariant fso.data == TableWritten(chunks, z, i)
    {
      WriteTableEntry(chunks, z, i, offsets[i]);
      fso.Write(LE32(offsets[i]));
    }
  }
}
