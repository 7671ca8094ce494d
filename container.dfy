/** The container layout shared by the encoder and the decoder:

      offset 0         chunk count, 32-bit little-endian
      offset 4 + 4i    offset of chunk i's record, 32-bit little-endian
      offset 0x40000   record 0, record 1, ...

    where the record of a chunk is its uncompressed size (32-bit
    little-endian) followed by the zlib stream of its bytes. */
module Container {
  import opened Int32
  import opened Streams
  import opened Codec

  /** Uncompressed bytes per chunk. */
  const ChunkSize: nat := 0x20000
  /** Where the first record starts, whatever the chunk count. */
  const DataStart: nat := 0x40000
  /** What the decoder adds to a table entry to reach the deflate data: the
      4-byte size field and the 2-byte zlib header. */
  const HeaderSkip: nat := 6
  /** Table entries that fit between the count and DataStart. */
  const TableCapacity: nat := (DataStart - 4) / 4
  /** The longest input for which `length + 0x1FFFF` stays within `int`. */
  const MaxInput: nat := 0x7FFE0000

  lemma MaskConstants()
    ensures Pow2(17) == ChunkSize && Pow2(32) == Two32
    ensures BitNot32(0x1FFFF) == HighMask(32, 17)
  {
    assert Pow2(8) == 0x100;
    assert Pow2(16) == 0x1_0000;
    assert Pow2(24) == 0x100_0000;
    assert Pow2(32) == Two32;
    HighMaskValue(32, 17);
  }

  /** Masking with `~0x1FFFF` rounds a 32-bit value down to a multiple of
      ChunkSize. */
  lemma MaskRoundsDown(x: nat)
    requires x < Two32
    ensures BitAnd(x, BitNot32(0x1FFFF)) == x - x % ChunkSize
  {
    MaskConstants();
    ClearLowBits(x, 32, 17);
    LowBitsIsMod(x, 17);
  }

  /** Rounding n + 0x1FFFF down to a multiple of ChunkSize and dividing
      gives the least number of chunks that hold n bytes. */
  lemma RoundDownCounts(n: nat)
    requires n <= MaxInput
    ensures var x := n + 0x1FFFF; var r := (x - x % ChunkSize) / ChunkSize;
      n <= r * ChunkSize && (r == 0 || (r - 1) * ChunkSize < n) && r <= TableCapacity
  {
    var x := n + 0x1FFFF;
    var q := x / ChunkSize;
    assert x == q * ChunkSize + x % ChunkSize;
    assert (x - x % ChunkSize) / ChunkSize == q;
  }

  /** The chunk count of an n-byte input, computed as the encoder does:
      `((n + 0x1FFFF) & ~0x1FFFF) / 0x20000`. It is the least number of
      ChunkSize-byte chunks that hold n bytes. */
  function ChunkCount(n: nat): (r: nat)
    requires n <= MaxInput
    ensures n <= r * ChunkSize
    ensures r == 0 || (r - 1) * ChunkSize < n
    ensures r <= TableCapacity
  {
    MaskRoundsDown(n + 0x1FFFF);
    RoundDownCounts(n);
    BitAnd(n + 0x1FFFF, BitNot32(0x1FFFF)) / 0x20000
  }

  /** The mask expression is ceiling division; empty input has no chunks. */
  lemma ChunkCountIsCeiling(n: nat)
    requires n <= MaxInput
    ensures ChunkCount(n) == (n + ChunkSize - 1) / ChunkSize
    ensures ChunkCount(n) == 0 <==> n == 0
  {
    var r := ChunkCount(n);
    var c := (n + ChunkSize - 1) / ChunkSize;
    assert c * ChunkSize <= n + ChunkSize - 1 < c * ChunkSize + ChunkSize;
  }

  /** A chunk's record: its uncompressed size, then its zlib stream. */
  function Record(chunk: seq<byte>, z: Compressor): (r: seq<byte>)
    ensures |r| == 4 + |z(chunk)|
  {
    LE32(|chunk|) + z(chunk)
  }

  /** The records of the chunks, one after the other in index order; each
      holds at least its 4-byte size field. */
  function Records(chunks: seq<seq<byte>>, z: Compressor): (r: seq<byte>)
    ensures |r| >= 4 * |chunks|
  {
    if chunks == [] then []
    else Records(chunks[..|chunks| - 1], z) + Record(chunks[|chunks| - 1], z)
  }

  /** The chunks' bytes, one after the other in index order. */
  function Flatten(chunks: seq<seq<byte>>): (r: seq<byte>)
  {
    if chunks == [] then [] else Flatten(chunks[..|chunks| - 1]) + chunks[|chunks| - 1]
  }

  /** Where the record of chunk i starts: past the header region and at
      least the size fields of the records before it. */
  function OffsetAt(chunks: seq<seq<byte>>, z: Compressor, i: nat): (r: nat)
    requires i <= |chunks|
    ensures r >= DataStart + 4 * i
  {
    DataStart + |Records(chunks[..i], z)|
  }

  function Offsets(chunks: seq<seq<byte>>, z: Compressor): (r: seq<nat>)
    ensures |r| == |chunks|
    ensures forall i :: 0 <= i < |chunks| ==> r[i] == OffsetAt(chunks, z, i)
  {
    seq(|chunks|, i requires 0 <= i < |chunks| => OffsetAt(chunks, z, i))
  }

  /** The offset table: each value as a little-endian 32-bit entry. */
  function Table(values: seq<int>): (r: seq<byte>)
    ensures |r| == 4 * |values|
  {
    if values == [] then [] else Table(values[..|values| - 1]) + LE32(values[|values| - 1])
  }

  /** The header region, DataStart bytes long: the count, the table and the
      zeros after it. */
  function Head(chunks: seq<seq<byte>>, z: Compressor): (r: seq<byte>)
    requires |chunks| <= TableCapacity
    ensures |r| == DataStart
  {
    LE32(|chunks|) + Table(Offsets(chunks, z)) + Zeros(DataStart - 4 - 4 * |chunks|)
  }

  /** The container the encoder produces for the given chunks: the header
      region and then the records. With no chunks only the count is ever
      written. */
  function Layout(chunks: seq<seq<byte>>, z: Compressor): (r: seq<byte>)
    requires |chunks| <= TableCapacity
    ensures chunks == [] <==> |r| == 4
    ensures chunks != [] ==> |r| >= DataStart + 4 * |chunks|
  {
    if chunks == [] then LE32(0) else Head(chunks, z) + Records(chunks, z)
  }

  // Slices of concatenations.

  lemma SliceOfFront(a: seq<byte>, b: seq<byte>, i: nat, j: nat)
    requires i <= j <= |a|
    ensures (a + b)[i..j] == a[i..j]
  {
  }

  lemma SliceOfBack(a: seq<byte>, b: seq<byte>, i: nat, j: nat)
    requires i <= j <= |b|
    ensures (a + b)[|a| + i..|a| + j] == b[i..j]
  {
  }

  lemma SliceJoin(s: seq<byte>, a: nat, b: nat, c: nat)
    requires a <= b <= c <= |s|
    ensures s[a..b] + s[b..c] == s[a..c]
  {
  }

  lemma RecordsStep(chunks: seq<seq<byte>>, z: Compressor, i: nat)
    requires i < |chunks|
    ensures Records(chunks[..i + 1], z) == Records(chunks[..i], z) + Record(chunks[i], z)
  {
    assert chunks[..i + 1][..i] == chunks[..i];
  }

  lemma FlattenStep(chunks: seq<seq<byte>>, i: nat)
    requires i < |chunks|
    ensures Flatten(chunks[..i + 1]) == Flatten(chunks[..i]) + chunks[i]
  {
    assert chunks[..i + 1][..i] == chunks[..i];
  }

  /** Record i sits between the end of the records before it and the start
      of those after it. */
  lemma {:induction false} RecordsAt(chunks: seq<seq<byte>>, z: Compressor, i: nat)
    requires i < |chunks|
    ensures |Records(chunks[..i + 1], z)| == |Records(chunks[..i], z)| + 4 + |z(chunks[i])|
    ensures |Records(chunks[..i + 1], z)| <= |Records(chunks, z)|
    ensures Records(chunks, z)[|Records(chunks[..i], z)|..|Records(chunks[..i + 1], z)|] == Record(chunks[i], z)
    decreases |chunks|
  {
    var n := |chunks| - 1;
    var init := chunks[..n];
    RecordsStep(chunks, z, i);
    assert Records(chunks, z) == Records(init, z) + Record(chunks[n], z);
    if i == n {
      assert chunks[..i] == init;
      assert chunks[..i + 1] == chunks;
      SliceOfBack(Records(init, z), Record(chunks[n], z), 0, |Record(chunks[n], z)|);
    } else {
      RecordsAt(init, z, i);
      assert init[..i] == chunks[..i] && init[..i + 1] == chunks[..i + 1] && init[i] == chunks[i];
      SliceOfFront(Records(init, z), Record(chunks[n], z),
        |Records(chunks[..i], z)|, |Records(chunks[..i + 1], z)|);
    }
  }

  /** The offset recurrence: the first record is at DataStart and each next
      one follows the previous record's size field and zlib stream. */
  lemma OffsetRecurrence(chunks: seq<seq<byte>>, z: Compressor, i: nat)
    requires i < |chunks|
    ensures OffsetAt(chunks, z, 0) == DataStart
    ensures OffsetAt(chunks, z, i + 1) == OffsetAt(chunks, z, i) + 4 + |z(chunks[i])|
  {
    assert chunks[..0] == [];
    RecordsStep(chunks, z, i);
  }

  /** Record offsets strictly increase, so records never overlap. */
  lemma {:induction false} OffsetsIncrease(chunks: seq<seq<byte>>, z: Compressor, i: nat, j: nat)
    requires i < j <= |chunks|
    ensures OffsetAt(chunks, z, i) + 4 <= OffsetAt(chunks, z, j)
    decreases j
  {
    OffsetRecurrence(chunks, z, j - 1);
    if i < j - 1 {
      OffsetsIncrease(chunks, z, i, j - 1);
    }
  }

  lemma TableStep(values: seq<int>, i: nat)
    requires i < |values|
    ensures Table(values[..i + 1]) == Table(values[..i]) + LE32(values[i])
  {
    assert values[..i + 1][..i] == values[..i];
  }

  lemma {:induction false} TableAt(values: seq<int>, i: nat)
    requires i < |values|
    ensures |Table(values)| == 4 * |values|
    ensures Table(values)[4 * i..4 * i + 4] == LE32(values[i])
    decreases |values|
  {
    var n := |values| - 1;
    var init := values[..n];
    assert Table(values) == Table(init) + LE32(values[n]);
    if i == n {
      SliceOfBack(Table(init), LE32(values[n]), 0, 4);
    } else {
      TableAt(init, i);
      SliceOfFront(Table(init), LE32(values[n]), 4 * i, 4 * i + 4);
    }
  }

  /** Chunk i's record lies at its offset, and the container ends right after
      the last record. */
  lemma LayoutRecord(chunks: seq<seq<byte>>, z: Compressor, i: nat)
    requires |chunks| <= TableCapacity && i < |chunks|
    ensures OffsetAt(chunks, z, i) + 4 <= OffsetAt(chunks, z, i + 1) <= |Layout(chunks, z)|
    ensures |Layout(chunks, z)| == OffsetAt(chunks, z, |chunks|)
    ensures Layout(chunks, z)[OffsetAt(chunks, z, i)..OffsetAt(chunks, z, i + 1)] == Record(chunks[i], z)
  {
    var n := |chunks|;
    var h, r := Head(chunks, z), Records(chunks, z);
    assert Layout(chunks, z) == h + r;
    assert chunks[..n] == chunks;
    RecordsAt(chunks, z, i);
    SliceOfBack(h, r, |Records(chunks[..i], z)|, |Records(chunks[..i + 1], z)|);
  }

  /** The header: the count in bytes [0, 4), the offset of record i in
      [4 + 4i, 8 + 4i), and zeros from the end of the table up to DataStart. */
  lemma LayoutHeader(chunks: seq<seq<byte>>, z: Compressor)
    requires 0 < |chunks| <= TableCapacity
    ensures DataStart <= |Layout(chunks, z)|
    ensures Layout(chunks, z)[..4] == LE32(|chunks|)
    ensures forall i :: 0 <= i < |chunks| ==>
      Layout(chunks, z)[4 + 4 * i..8 + 4 * i] == LE32(OffsetAt(chunks, z, i))
    ensures forall k :: 4 + 4 * |chunks| <= k < DataStart ==> Layout(chunks, z)[k] == 0
  {
    var n := |chunks|;
    var offs := Offsets(chunks, z);
    var t := Table(offs);
    var h, r := Head(chunks, z), Records(chunks, z);
    var l := Layout(chunks, z);
    assert l == h + r;
    var front := LE32(n) + t;
    assert h == front + Zeros(DataStart - 4 - 4 * n);
    SliceOfFront(h, r, 0, 4);
    SliceOfFront(front, Zeros(DataStart - 4 - 4 * n), 0, 4);
    SliceOfFront(LE32(n), t, 0, 4);
    forall i | 0 <= i < n ensures l[4 + 4 * i..8 + 4 * i] == LE32(OffsetAt(chunks, z, i)) {
      TableAt(offs, i);
      SliceOfFront(h, r, 4 + 4 * i, 8 + 4 * i);
      SliceOfFront(front, Zeros(DataStart - 4 - 4 * n), 4 + 4 * i, 8 + 4 * i);
      SliceOfBack(LE32(n), t, 4 * i, 4 * i + 4);
    }
    forall k | 4 + 4 * n <= k < DataStart ensures l[k] == 0 {
      assert l[k] == h[k];
    }
  }
}
