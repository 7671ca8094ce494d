/** The 32-bit integer machinery of the C# runtime that the container format
    leans on: bytes, two's-complement wrap-around of `int` arithmetic,
    the bitwise `&` used by the chunk-count expression, and the little-endian
    encoding of `BinaryWriter.Write(int)` and `BitConverter.ToInt32`. */
module Int32 {

  type byte = x: int | 0 <= x < 256

  const Two31: int := 0x8000_0000
  const Two32: int := 0x1_0000_0000

  function Pow2(k: nat): (r: nat)
    ensures r >= 1
  {
    if k == 0 then 1 else 2 * Pow2(k - 1)
  }

  /** `a & b` on non-negative integers, one bit at a time from the lowest. */
  function BitAnd(a: nat, b: nat): (r: nat)
    ensures r <= a && r <= b
  {
    if a == 0 || b == 0 then 0
    else 2 * BitAnd(a / 2, b / 2) + (if a % 2 == 1 && b % 2 == 1 then 1 else 0)
  }

  /** The bit pattern of `~a` in a 32-bit word. */
  function BitNot32(a: nat): (r: nat)
    requires a < Two32
    ensures r < Two32
  {
    Two32 - 1 - a
  }

  /** Division with remainder determines the remainder. */
  lemma ModUnique(x: int, d: int, a: int, s: int)
    requires d > 0 && x == d * a + s && 0 <= s < d
    ensures x % d == s
  {
    var t := x / d - a;
    assert d * t == s - x % d;
    assert t == 0;
  }

  lemma ModPow2Step(x: nat, k: nat)
    requires k > 0
    ensures x % Pow2(k) == x % 2 + 2 * ((x / 2) % Pow2(k - 1))
  {
    var p := Pow2(k - 1);
    var q, b := x / 2, (x / 2) % p;
    var a := q / p;
    assert q == p * a + b;
    assert x == (2 * p) * a + (2 * b + x % 2);
    ModUnique(x, 2 * p, a, 2 * b + x % 2);
  }

  /** The number whose w low bits are set. */
  function Ones(w: nat): (r: nat)
  {
    if w == 0 then 0 else 2 * Ones(w - 1) + 1
  }

  /** The number whose bits k up to w (exclusive) are set. */
  function HighMask(w: nat, k: nat): (r: nat)
    requires k <= w
  {
    if k == 0 then Ones(w) else 2 * HighMask(w - 1, k - 1)
  }

  lemma {:induction false} OnesValue(w: nat)
    ensures Ones(w) == Pow2(w) - 1
  {
    if w > 0 {
      OnesValue(w - 1);
    }
  }

  lemma {:induction false} HighMaskValue(w: nat, k: nat)
    requires k <= w
    ensures HighMask(w, k) == Pow2(w) - Pow2(k)
  {
    if k == 0 {
      OnesValue(w);
    } else {
      HighMaskValue(w - 1, k - 1);
    }
  }

  /** The number formed by the k lowest bits of x. */
  function LowBits(x: nat, k: nat): (r: nat)
  {
    if k == 0 then 0 else x % 2 + 2 * LowBits(x / 2, k - 1)
  }

  lemma {:induction false} LowBitsIsMod(x: nat, k: nat)
    ensures LowBits(x, k) == x % Pow2(k)
  {
    if k > 0 {
      LowBitsIsMod(x / 2, k - 1);
      ModPow2Step(x, k);
    }
  }

  lemma BitAndEven(x: nat, h: nat)
    ensures BitAnd(x, 2 * h) == 2 * BitAnd(x / 2, h)
  {
    assert (2 * h) / 2 == h && (2 * h) % 2 == 0;
  }

  lemma BitAndOdd(x: nat, h: nat)
    requires x != 0
    ensures BitAnd(x, 2 * h + 1) == 2 * BitAnd(x / 2, h) + x % 2
  {
    assert (2 * h + 1) / 2 == h && (2 * h + 1) % 2 == 1;
  }

  /** Masking with w one-bits keeps a w-bit number as it is. */
  lemma {:induction false} KeepAllBits(x: nat, w: nat)
    requires x < Pow2(w)
    ensures BitAnd(x, Ones(w)) == x
  {
    if x != 0 {
      assert w > 0;
      KeepAllBits(x / 2, w - 1);
      BitAndOdd(x, Ones(w - 1));
    }
  }

  /** Masking with the bits from k up to w clears exactly the k low bits. */
  lemma {:induction false} ClearLowBits(x: nat, w: nat, k: nat)
    requires k <= w && x < Pow2(w)
    ensures BitAnd(x, HighMask(w, k)) == x - LowBits(x, k)
  {
    if k == 0 {
      KeepAllBits(x, w);
    } else {
      ClearLowBits(x / 2, w - 1, k - 1);
      BitAndEven(x, HighMask(w - 1, k - 1));
    }
  }

  /** The int32 value congruent to x modulo 2^32: unchecked C# `int` arithmetic
      and the `(int)` cast of a `long`. */
  function Wrap32(x: int): (r: int)
    ensures -Two31 <= r < Two31
    ensures (r - x) % Two32 == 0
    ensures -Two31 <= x < Two31 ==> r == x
  {
    var u := x % Two32;
    if u >= Two31 then u - Two32 else u
  }

  /** Values congruent modulo 2^32 wrap to the same int32. */
  lemma Wrap32Congruent(x: int, y: int)
    requires (x - y) % Two32 == 0
    ensures Wrap32(x) == Wrap32(y)
  {
    var k := (x - y) / Two32;
    assert x - y == Two32 * k;
    assert x == Two32 * (y / Two32 + k) + y % Two32;
    ModUnique(x, Two32, y / Two32 + k, y % Two32);
  }

  /** Adding to a wrapped value and wrapping again is wrapping the exact sum. */
  lemma Wrap32Add(x: int, d: int)
    ensures Wrap32(Wrap32(x) + d) == Wrap32(x + d)
  {
    var r := Wrap32(x);
    var t := (r - x) / Two32;
    assert r - x == Two32 * t;
    assert (r + d) - (x + d) == Two32 * t;
    Wrap32Congruent(r + d, x + d);
  }

  /** Subtracting a wrapped value and wrapping is wrapping the exact
      difference. */
  lemma Wrap32Sub(a: int, x: int)
    ensures Wrap32(a - Wrap32(x)) == Wrap32(a - x)
  {
    var r := Wrap32(x);
    var t := (r - x) / Two32;
    assert r - x == Two32 * t;
    assert (a - r) - (a - x) == Two32 * (-t);
    Wrap32Congruent(a - r, a - x);
  }

  /** The width lowest base-256 digits of u, least significant first. */
  function LittleEndian(u: nat, width: nat): (r: seq<byte>)
    ensures |r| == width
  {
    if width == 0 then [] else [u % 256] + LittleEndian(u / 256, width - 1)
  }

  /** The four bytes that `BinaryWriter.Write(int)` emits for v: they depend
      on v modulo 2^32 only. */
  function LE32(v: int): (r: seq<byte>)
    ensures |r| == 4
  {
    LittleEndian(v % Two32, 4)
  }

  /** `BitConverter.ToInt32(b, at)` on a little-endian host. */
  function ToInt32(b: seq<byte>, at: nat): (r: int)
    requires at + 4 <= |b|
    ensures -Two31 <= r < Two31
  {
    var u := b[at] as int + 0x100 * b[at + 1] as int + 0x1_0000 * b[at + 2] as int + 0x100_0000 * b[at + 3] as int;
    if u >= Two31 then u - Two32 else u
  }

  lemma LittleEndianValue(u: nat)
    requires u < Two32
    ensures var b := LittleEndian(u, 4);
      b[0] as int + 0x100 * b[1] as int + 0x1_0000 * b[2] as int + 0x100_0000 * b[3] as int == u
  {
    var x1 := u / 256;
    var x2 := x1 / 256;
    var x3 := x2 / 256;
    assert x3 < 256;
    assert LittleEndian(x3, 1) == [x3 % 256] + LittleEndian(x3 / 256, 0);
    assert LittleEndian(x2, 2) == [x2 % 256] + LittleEndian(x3, 1);
    assert LittleEndian(x1, 3) == [x1 % 256] + LittleEndian(x2, 2);
    assert LittleEndian(u, 4) == [u % 256] + LittleEndian(x1, 3);
  }

  /** Reading back what `BinaryWriter.Write(int)` wrote gives the int32 value. */
  lemma ToInt32OfLE32(v: int)
    ensures ToInt32(LE32(v), 0) == Wrap32(v)
  {
    LittleEndianValue(v % Two32);
  }

  /** `ToInt32` looks at the four bytes from `at` on only. */
  lemma ToInt32Slice(b: seq<byte>, at: nat)
    requires at + 4 <= |b|
    ensures ToInt32(b, at) == ToInt32(b[at..at + 4], 0)
  {
  }

  lemma LE32OfWrap32(v: int)
    ensures LE32(Wrap32(v)) == LE32(v)
  {
    assert Wrap32(v) % Two32 == v % Two32;
  }
}
