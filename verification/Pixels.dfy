/** Bytes, bit tests and 32-bit pixels.

    A `uint64_t` that only serves as a set of bits is modelled by its 64 bits, and
    the one-hot word walking over it by the index of its bit, where 64 stands for the
    word that has been shifted out to zero. Bytes on the wire are numbers. */
module Pixels {
  import opened Seqs

  type Byte = n: int | 0 <= n < 256

  /** The conversion to `uint8_t`. */
  function U8(n: int): (b: Byte)
    ensures 0 <= n < 256 ==> b == n
  {
    n % 256
  }

  function Zeros(n: nat): (r: seq<Byte>)
    ensures |r| == n
  {
    if n == 0 then [] else Zeros(n - 1) + [0]
  }

  type Word = w: seq<bool> | |w| == 64 witness seq(64, i => false)

  /** The mask of a row. */
  type Masks = m: seq<Word> | |m| == 4 witness seq(4, q => seq(64, i => false))

  function ZeroWord(): Word {
    seq(64, i => false)
  }

  // ---------- bits of a byte ----------

  /** `b & (1 << k)`. */
  predicate TestBit(b: nat, k: nat) {
    if k == 0 then b % 2 == 1 else TestBit(b / 2, k - 1)
  }

  /** The number whose bit k is bits[k]. */
  function PackBits(bits: seq<bool>): nat {
    if bits == [] then 0 else (if bits[0] then 1 else 0) + 2 * PackBits(bits[1..])
  }

  lemma {:induction false} PackedBitsTest(bits: seq<bool>, k: nat)
    requires k < |bits|
    ensures TestBit(PackBits(bits), k) == bits[k]
  {
    if k > 0 {
      PackedBitsTest(bits[1..], k - 1);
    }
  }

  function PackByte(bits: seq<bool>): (b: Byte)
    requires |bits| == 8
    ensures forall k :: 0 <= k < 8 ==> TestBit(b, k) == bits[k]
  {
    assert bits == [bits[0], bits[1], bits[2], bits[3], bits[4], bits[5], bits[6], bits[7]];
    assert forall k :: 0 <= k < 8 ==> TestBit(PackBits(bits), k) == bits[k] by {
      forall k | 0 <= k < 8 ensures TestBit(PackBits(bits), k) == bits[k] {
        PackedBitsTest(bits, k);
      }
    }
    PackBoundEight(bits);
    PackBits(bits)
  }

  lemma {:induction false} PackBound(bits: seq<bool>, n: nat, pow: nat)
    requires |bits| == n && pow == Pow2(n)
    ensures PackBits(bits) < pow
  {
    if n > 0 {
      PackBound(bits[1..], n - 1, Pow2(n - 1));
    }
  }

  function Pow2(n: nat): nat {
    if n == 0 then 1 else 2 * Pow2(n - 1)
  }

  lemma {:induction false} PackBoundEight(bits: seq<bool>)
    requires |bits| == 8
    ensures PackBits(bits) < 256
  {
    PackBound(bits, 8, Pow2(8));
  }

  /** Two bytes with the same eight bits are the same byte. */
  lemma {:induction false} SameBits(a: nat, b: nat, n: nat)
    requires a < Pow2(n) && b < Pow2(n)
    requires forall k :: 0 <= k < n ==> TestBit(a, k) == TestBit(b, k)
    ensures a == b
  {
    if n > 0 {
      assert TestBit(a, 0) == TestBit(b, 0);
      forall k | 0 <= k < n - 1 ensures TestBit(a / 2, k) == TestBit(b / 2, k) {
        assert TestBit(a, k + 1) == TestBit(b, k + 1);
      }
      SameBits(a / 2, b / 2, n - 1);
    }
  }

  // ---------- pixels ----------

  /** A `uint32_t` pixel as its four bytes in memory order. */
  datatype Pixel = Pixel(b0: Byte, b1: Byte, b2: Byte, b3: Byte)

  const TRANSPARENT := Pixel(0, 0, 0, 0)

  /** `LibreOfficeKitTileMode`: the byte order the renderer produced. */
  datatype TileMode = RGBA | BGRA

  function ConvertPixel(p: Pixel, mode: TileMode): (q: Pixel)
    ensures q == TRANSPARENT <==> p == TRANSPARENT
  {
    match mode
    case RGBA => p
    case BGRA => Pixel(p.b2, p.b1, p.b0, p.b3)
  }

  function PixelBytes(p: Pixel): (r: seq<Byte>)
    ensures |r| == 4
  {
    [p.b0, p.b1, p.b2, p.b3]
  }

  /** The memory of a run of pixels. */
  function RunBytes(px: seq<Pixel>): (r: seq<Byte>)
    ensures |r| == 4 * |px|
  {
    if px == [] then [] else RunBytes(px[..|px| - 1]) + PixelBytes(px[|px| - 1])
  }

  /** What the client is sent for a run: the bytes of its pixels in RGBA order. */
  function SentBytes(px: seq<Pixel>, mode: TileMode): (r: seq<Byte>)
    ensures |r| == 4 * |px|
  {
    if px == [] then [] else
      SentBytes(px[..|px| - 1], mode) + PixelBytes(ConvertPixel(px[|px| - 1], mode))
  }

  lemma {:induction false} RunBytesAt(px: seq<Pixel>, k: nat)
    requires k < |px|
    ensures RunBytes(px)[4 * k..4 * k + 4] == PixelBytes(px[k])
  {
    var n := |px| - 1;
    if k < n {
      RunBytesAt(px[..n], k);
      SliceOfPrefix(RunBytes(px[..n]), PixelBytes(px[n]), 4 * k, 4 * k + 4);
    }
  }

  lemma {:induction false} SentBytesAt(px: seq<Pixel>, mode: TileMode, k: nat)
    requires k < |px|
    ensures SentBytes(px, mode)[4 * k..4 * k + 4] == PixelBytes(ConvertPixel(px[k], mode))
  {
    var n := |px| - 1;
    if k < n {
      SentBytesAt(px[..n], mode, k);
      SliceOfPrefix(SentBytes(px[..n], mode), PixelBytes(ConvertPixel(px[n], mode)), 4 * k, 4 * k + 4);
    }
  }

  /** The four bytes sent for a pixel, by where they lie in memory. */
  lemma {:induction false} SentPixel(px: seq<Pixel>, mode: TileMode, k: nat)
    requires k < |px|
    ensures RunBytes(px)[4 * k..4 * k + 4] == [px[k].b0, px[k].b1, px[k].b2, px[k].b3]
    ensures SentBytes(px, mode)[4 * k..4 * k + 4] ==
              if mode == BGRA then [px[k].b2, px[k].b1, px[k].b0, px[k].b3]
              else [px[k].b0, px[k].b1, px[k].b2, px[k].b3]
  {
    RunBytesAt(px, k);
    SentBytesAt(px, mode, k);
  }

  /** Without a swap the client is sent the memory itself. */
  lemma {:induction false} SentRGBA(px: seq<Pixel>)
    ensures SentBytes(px, RGBA) == RunBytes(px)
  {
    if px != [] {
      SentRGBA(px[..|px| - 1]);
    }
  }

  lemma {:induction false} SentConcat(p: seq<Pixel>, q: seq<Pixel>, mode: TileMode)
    ensures SentBytes(p + q, mode) == SentBytes(p, mode) + SentBytes(q, mode)
  {
    if q == [] {
      assert p + q == p;
      assert SentBytes(p, mode) + [] == SentBytes(p, mode);
    } else {
      var n := |q| - 1;
      SentConcat(p, q[..n], mode);
      FrontOfConcat(p, q);
      Assoc(SentBytes(p, mode), SentBytes(q[..n], mode), PixelBytes(ConvertPixel(q[n], mode)));
    }
  }
}
