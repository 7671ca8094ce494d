/** The deflate-family codec the container wraps. The compressor is zlib
    (RFC 1950) at the BestSpeed level and the decompressor reads raw deflate
    (RFC 1951); both are foreign code, so the model takes them as function
    parameters and states the only facts the container relies on. */
module Codec {
  import opened Int32
  import opened Wrappers

  type Compressor = seq<byte> -> seq<byte>
  type Decompressor = seq<byte> -> Option<seq<byte>>

  /** What the framing needs of the pair: the zlib stream of a non-empty
      chunk starts with the 2-byte CMF/FLG header of section 2.2 of RFC 1950,
      and whenever a stream has those two bytes, the bytes after them are a
      raw deflate stream that decompresses to the original, whatever bytes
      follow it (the Adler-32 trailer and anything later). Nothing is assumed
      of what the compressor writes for an empty chunk: it may write nothing
      at all. */
  ghost predicate Laws(z: Compressor, inflate: Decompressor)
  {
    (forall s :: s != [] ==> |z(s)| >= 2) &&
    (forall s, rest :: |z(s)| >= 2 ==> inflate(z(s)[2..] + rest) == Some(s))
  }

  // A stand-in codec that stores bytes uncompressed, only to show that Laws
  // can be met. Given no bytes it writes no stream at all.

  function Escape(s: seq<byte>): (r: seq<byte>)
    ensures |r| == 2 * |s| + 1
  {
    if s == [] then [0] else [1, s[0]] + Escape(s[1..])
  }

  function Unescape(t: seq<byte>): (r: Option<seq<byte>>)
    ensures r.Some? ==> |r.value| < |t|
  {
    if t == [] then None
    else if t[0] == 0 then Some([])
    else if |t| < 2 then None
    else match Unescape(t[2..])
      case Some(r) => Some([t[1]] + r)
      case None => None
  }

  lemma {:induction false} UnescapeEscape(s: seq<byte>, rest: seq<byte>)
    ensures Unescape(Escape(s) + rest) == Some(s)
  {
    if s != [] {
      var tail := Escape(s[1..]) + rest;
      var t := [1, s[0]] + tail;
      assert Escape(s) + rest == t;
      UnescapeEscape(s[1..], rest);
      assert t[2..] == tail;
      assert Unescape(t) == Some([s[0]] + s[1..]);
      assert [s[0]] + s[1..] == s;
    }
  }

  function StoredCompress(s: seq<byte>): (r: seq<byte>)
    ensures s == [] <==> r == []
  {
    if s == [] then [] else [0x78, 0x01] + Escape(s)
  }

  function StoredInflate(t: seq<byte>): (r: Option<seq<byte>>)
  {
    Unescape(t)
  }

  lemma StoredCodecObeysLaws()
    ensures Laws(StoredCompress, StoredInflate)
  {
    forall s, rest | |StoredCompress(s)| >= 2
      ensures StoredInflate(StoredCompress(s)[2..] + rest) == Some(s)
    {
      assert StoredCompress(s)[2..] == Escape(s);
      UnescapeEscape(s, rest);
    }
  }
}
