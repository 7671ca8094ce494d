/** Seekable byte streams as the container code uses them: a byte sequence
    and a cursor. Reads past the end deliver nothing (the caller's buffer keeps
    its zeros); writes past the end fill the gap with zeros. */
module Streams {
  import opened Int32

  function Zeros(n: nat): (r: seq<byte>)
    ensures |r| == n
    ensures forall k :: 0 <= k < n ==> r[k] == 0
  {
    seq(n, _ => 0)
  }

  /** How many of n requested bytes a stream of the given size delivers when
      read at pos. */
  function Available(size: nat, pos: nat, n: nat): (r: nat)
    ensures r <= n
    ensures pos + r <= size || r == 0
    ensures r == n || pos + r >= size
  {
    if pos >= size then 0 else if pos + n <= size then n else size - pos
  }

  /** The n-byte buffer `Read(buff, 0, n)` leaves behind when the cursor is at pos. */
  function ReadAt(data: seq<byte>, pos: nat, n: nat): (r: seq<byte>)
    ensures |r| == n
    ensures forall k :: 0 <= k < n ==> r[k] == if pos + k < |data| then data[pos + k] else 0
  {
    var got := Available(|data|, pos, n);
    if got == 0 then Zeros(n) else data[pos..pos + got] + Zeros(n - got)
  }

  /** The stream contents after writing bytes at pos. */
  function WriteAt(data: seq<byte>, pos: nat, bytes: seq<byte>): (r: seq<byte>)
    ensures |r| == if bytes == [] then |data| else if pos + |bytes| <= |data| then |data| else pos + |bytes|
  {
    if bytes == [] then data
    else if pos <= |data| then
      data[..pos] + bytes + (if pos + |bytes| < |data| then data[pos + |bytes|..] else [])
    else
      data + Zeros(pos - |data|) + bytes
  }

  /** Each byte after a write: the written byte where the write landed, the
      old byte elsewhere, and zero in a gap the write opened. */
  lemma WriteAtIndex(data: seq<byte>, pos: nat, bytes: seq<byte>)
    ensures var r := WriteAt(data, pos, bytes);
      forall k :: 0 <= k < |r| ==>
        r[k] == if pos <= k < pos + |bytes| then bytes[k - pos] else if k < |data| then data[k] else 0
  {
  }

  lemma ReadInside(data: seq<byte>, pos: nat, n: nat)
    requires pos + n <= |data|
    ensures ReadAt(data, pos, n) == data[pos..pos + n]
  {
  }

  /** Writing at or past the end appends, after a zero gap. */
  lemma WritePastEnd(data: seq<byte>, pos: nat, bytes: seq<byte>)
    requires |data| <= pos && bytes != []
    ensures WriteAt(data, pos, bytes) == data + Zeros(pos - |data|) + bytes
  {
  }

  /** Writing at the end appends. */
  lemma WriteAtEnd(data: seq<byte>, bytes: seq<byte>)
    ensures WriteAt(data, |data|, bytes) == data + bytes
  {
    assert data[..|data|] == data;
  }

  /** Writing over a run of zeros replaces its head and keeps everything else. */
  lemma WriteOverZeros(front: seq<byte>, gap: nat, back: seq<byte>, bytes: seq<byte>)
    requires 0 < |bytes| <= gap
    ensures WriteAt(front + Zeros(gap) + back, |front|, bytes)
         == front + bytes + Zeros(gap - |bytes|) + back
  {
    var r := WriteAt(front + Zeros(gap) + back, |front|, bytes);
    var s := front + bytes + Zeros(gap - |bytes|) + back;
    WriteAtIndex(front + Zeros(gap) + back, |front|, bytes);
    assert |r| == |s|;
    forall k | 0 <= k < |r| ensures r[k] == s[k] {
    }
  }

  class ByteStream {
    var data: seq<byte>
    var position: nat

    constructor (initial: seq<byte>)
      ensures data == initial && position == 0
    {
      data := initial;
      position := 0;
    }

    method Seek(pos: nat)
      modifies this
      ensures data == old(data) && position == pos
    {
      position := pos;
    }

    method Write(bytes: seq<byte>)
      modifies this
      ensures data == WriteAt(old(data), old(position), bytes)
      ensures position == old(position) + |bytes|
    {
      data := WriteAt(data, position, bytes);
      position := position + |bytes|;
    }

    method Read(n: nat) returns (buf: seq<byte>)
      modifies this
      ensures buf == ReadAt(old(data), old(position), n)
      ensures data == old(data)
      ensures position == old(position) + Available(|old(data)|, old(position), n)
    {
      buf := ReadAt(data, position, n);
      position := position + Available(|data|, position, n);
    }
  }
}
