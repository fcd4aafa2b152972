/** `DeltaBitmapRow` and its `PixIterator` (kit/Delta.hpp). */
module BitmapRows {
  import opened Numbers
  import opened Pixels
  import opened Seqs
  import opened RowCodec
  import opened Buffers
  import DeltaSimd

  /** Where the scalar encoder stands after x pixels. */
  ghost predicate Encoded(from: seq<Pixel>, x: nat, lastPix: Pixel, scratch: seq<Pixel>, outp: nat) {
    x <= |from| && lastPix == PrevPixel(from, x) &&
    outp <= x && outp <= |scratch| && scratch[..outp] == Changed(from[..x])
  }

  /** One turn of either inner loop: pixel x sets its mask bit or is stored. */
  method EncodePixel(from: seq<Pixel>, scratch: array<Pixel>, x: nat, lastPix: Pixel, outp: nat)
    returns (same: bool, lastPix': Pixel, outp': nat)
    requires scratch.Length == |from| && x < |from|
    requires Encoded(from, x, lastPix, scratch[..], outp)
    modifies scratch
    ensures Encoded(from, x + 1, lastPix', scratch[..], outp')
    ensures same == Same(from, x)
  {
    ChangedStep(from, x);
    same, lastPix', outp' := from[x] == lastPix, lastPix, outp;
    if !same {
      lastPix' := from[x];
      scratch[outp] := lastPix';
      outp' := outp + 1;
      assert scratch[..outp'] == old(scratch[..outp]) + [from[x]];
    }
  }

  /** The bits of mask word q that the first n pixels of the word decide. */
  ghost predicate WordSoFar(from: seq<Pixel>, q: nat, n: nat, rleMask: seq<bool>) {
    |rleMask| == 64 && 64 * q + n <= |from| &&
    forall b :: 0 <= b < 64 ==> rleMask[b] == (b < n && Same(from, 64 * q + b))
  }

  /** The inner loop over a whole 64-bit chunk; it stops when the bit is shifted out. */
  method EncodeChunk(from: seq<Pixel>, scratch: array<Pixel>, mask: nat, lastPix0: Pixel, outp0: nat)
    returns (rleMask: Word, x: nat, lastPix: Pixel, outp: nat)
    requires scratch.Length == |from| && 64 * mask + 64 < |from|
    requires Encoded(from, 64 * mask, lastPix0, scratch[..], outp0)
    modifies scratch
    ensures rleMask == MaskWord(from, mask) && x == 64 * mask + 64
    ensures Encoded(from, x, lastPix, scratch[..], outp)
  {
    x, lastPix, outp := 64 * mask, lastPix0, outp0;
    rleMask := ZeroWord();
    var same: bool;
    var bitToSet: nat := 0;
    while bitToSet < 64
      invariant bitToSet <= 64 && x == 64 * mask + bitToSet
      invariant WordSoFar(from, mask, bitToSet, rleMask)
      invariant Encoded(from, x, lastPix, scratch[..], outp)
    {
      same, lastPix, outp := EncodePixel(from, scratch, x, lastPix, outp);
      if same {
        rleMask := rleMask[bitToSet := true];
      }
      x, bitToSet := x + 1, bitToSet + 1;
    }
  }

  /** The inner loop over what is left of the row, at most 64 pixels. */
  method EncodeRest(from: seq<Pixel>, scratch: array<Pixel>, mask: nat, x0: nat, lastPix0: Pixel, outp0: nat)
    returns (rleMask: Word, x: nat, lastPix: Pixel, outp: nat)
    requires scratch.Length == |from| && x0 == Min(64 * mask, |from|) && |from| <= x0 + 64
    requires Encoded(from, x0, lastPix0, scratch[..], outp0)
    modifies scratch
    ensures rleMask == MaskWord(from, mask) && x == |from|
    ensures Encoded(from, x, lastPix, scratch[..], outp)
  {
    x, lastPix, outp := x0, lastPix0, outp0;
    rleMask := ZeroWord();
    var same: bool;
    var bitToSet: nat := 0;
    while x < |from|
      invariant x == x0 + bitToSet <= |from|
      invariant x0 == 64 * mask ==> WordSoFar(from, mask, bitToSet, rleMask)
      invariant x0 < 64 * mask ==> rleMask == ZeroWord()
      invariant Encoded(from, x, lastPix, scratch[..], outp)
    {
      same, lastPix, outp := EncodePixel(from, scratch, x, lastPix, outp);
      if same {
        rleMask := rleMask[bitToSet := true];
      }
      x, bitToSet := x + 1, bitToSet + 1;
    }
  }

  /** The scalar encoder. `scratch` receives the changed pixels. */
  method InitPixRowCpu(from: seq<Pixel>, scratch: array<Pixel>)
    returns (scratchLen: nat, rleMaskBlock: Masks)
    requires scratch.Length == |from|
    modifies scratch
    ensures scratchLen <= scratch.Length && scratch[..scratchLen] == RowData(from)
    ensures rleMaskBlock == RowMasks(from)
  {
    var width := |from|;
    var lastPix := TRANSPARENT;
    var x: nat, outp: nat := 0, 0;
    rleMaskBlock := [ZeroWord(), ZeroWord(), ZeroWord(), ZeroWord()];
    var mask: nat := 0;
    while mask < 4
      invariant mask <= 4 && x == Min(64 * mask, width) && |rleMaskBlock| == 4
      invariant forall q :: 0 <= q < mask ==> rleMaskBlock[q] == MaskWord(from, q)
      invariant Encoded(from, x, lastPix, scratch[..], outp)
    {
      var rleMask: Word;
      if width - x > 64 {
        rleMask, x, lastPix, outp := EncodeChunk(from, scratch, mask, lastPix, outp);
      } else {
        rleMask, x, lastPix, outp := EncodeRest(from, scratch, mask, x, lastPix, outp);
      }
      rleMaskBlock := rleMaskBlock[mask := rleMask];
      mask := mask + 1;
    }
    assert from[..x] == Head(from);
    if x < width {
      ghost var done := scratch[..outp];
      forall i | 0 <= i < width - x {
        scratch[outp + i] := from[x + i];
      }
      assert scratch[..outp] == done;
      assert scratch[outp..outp + (width - x)] == from[x..];
      outp := outp + (width - x);
    }
    scratchLen := outp;
  }

  /** The table of the vector encoder, filled in once at start. */
  class SimdTables {
    const vpermdLut: seq<DeltaSimd.Control>

    ghost predicate Valid() {
      |vpermdLut| == 256 && forall p :: 0 <= p < 256 ==> DeltaSimd.Gathers(vpermdLut[p], p)
    }

    constructor ()
      ensures Valid()
    {
      var lut := new DeltaSimd.Control[256](i => DeltaSimd.ZERO_CONTROL);
      DeltaSimd.InitGatherLut(lut);
      vpermdLut := lut[..];
    }
  }

  /** A row once encoded never changes. Empty data stands for the null pointer. */
  class DeltaBitmapRow {
    const rleSize: nat
    const rleMask: Masks
    const rleData: seq<Pixel>

    /** The row is the encoding of these pixels. */
    ghost predicate Encodes(px: seq<Pixel>) {
      EncodesWrapped(px, WRAPS)
    }

    ghost predicate EncodesWrapped(px: seq<Pixel>, wraps: nat) {
      if wraps > 0 then EncodesWrapped(px, wraps - 1) else
        rleMask == RowMasks(px) && rleData == RowData(px) && rleSize == |rleData|
    }

    lemma {:induction false} OpenEncodes(px: seq<Pixel>, wraps: nat)
      ensures EncodesWrapped(px, wraps) <==>
              rleMask == RowMasks(px) && rleData == RowData(px) && rleSize == |rleData|
    {
      if wraps > 0 {
        OpenEncodes(px, wraps - 1);
      }
    }

    /** `initRow`; no tables stand for a machine without the vector instructions. */
    constructor (from: seq<Pixel>, simd: SimdTables?)
      requires simd != null ==> simd.Valid()
      ensures Encodes(from)
    {
      var width := |from|;
      var scratch := new Pixel[width](i => TRANSPARENT);
      var size: nat, masks: Masks;
      if simd != null && width == 256 {
        size, masks := DeltaSimd.InitPixRowSimd(simd.vpermdLut, from, scratch);
      } else {
        size, masks := InitPixRowCpu(from, scratch);
      }
      rleSize := size;
      rleMask := masks;
      rleData := scratch[..size];
      new;
      OpenEncodes(from, WRAPS);
    }

    /** Two rows of equal width are found identical exactly when they are the same row. */
    method Identical(other: DeltaBitmapRow, ghost a: seq<Pixel>, ghost b: seq<Pixel>) returns (r: bool)
      requires Encodes(a) && other.Encodes(b) && |a| == |b|
      ensures r <==> a == b
    {
      OpenEncodes(a, WRAPS);
      other.OpenEncodes(b, WRAPS);
      EncodingIsCanonical(a, b);
      if rleSize != other.rleSize {
        return false;
      }
      if rleMask != other.rleMask {
        return false;
      }
      if rleData == [] && other.rleData == [] {
        return true;
      }
      if rleData == [] || other.rleData == [] {
        return false;
      }
      return rleData == other.rleData;
    }

    /** `packForNetwork`: size, mask and converted pixels of the row, at the front of a buffer. */
    method PackForNetwork(output: ByteBuffer, mode: TileMode) returns (size: nat)
      requires rleSize == |rleData| < 65536
      requires 34 + 4 * rleSize <= |output.bytes|
      modifies output
      ensures size == 34 + 4 * rleSize
      ensures output.bytes == PackedRow(rleMask, rleData, mode) + old(output.bytes)[size..]
    {
      ghost var was := output.bytes;
      ghost var header := [U8(rleSize % 256), U8(rleSize / 256)];
      output.Set(0, U8(rleSize % 256));
      output.Set(1, U8(rleSize / 256));
      output.Store(2, MaskBlockBytes(rleMask));
      assert output.bytes == header + MaskBlockBytes(rleMask) + was[34..];
      if rleSize > 0 {
        CopyRow(output, 34, rleData, mode);
      } else {
        assert SentBytes(rleData, mode) == [];
      }
      size := 2 + 32 + rleSize * 4;
    }
  }

  /** `PixIterator`: decodes a row one pixel at a time. `bitToCheck` is the index of the bit
      to test, 64 for the word that is zero. */
  class PixIterator {
    const row: DeltaBitmapRow
    ghost const px: seq<Pixel>
    var mask: nat
    var lastPix: Pixel
    var lastMask: Word
    var bitToCheck: nat
    var rlePtr: nat

    /** Where the iterator stands after n calls of Next: it shows the n-th pixel of the row. */
    ghost predicate At(n: nat)
      reads this
    {
      AtWrapped(n, WRAPS)
    }

    ghost predicate AtWrapped(n: nat, wraps: nat)
      reads this
    {
      if wraps > 0 then AtWrapped(n, wraps - 1) else InStep(n)
    }

    lemma {:induction false} OpenAt(n: nat, wraps: nat)
      ensures AtWrapped(n, wraps) <==> InStep(n)
    {
      if wraps > 0 {
        OpenAt(n, wraps - 1);
      }
    }

    ghost predicate InStep(n: nat)
      reads this
    {
      row.Encodes(px) && lastPix == Shown(px, n) &&
      1 <= bitToCheck <= 64 && mask <= 4 && rlePtr == Consumed(px, n) &&
      (rlePtr < |row.rleData| ==>
        if n <= MASKED then n + 64 == 64 * mask + bitToCheck && InHand()
        else mask == 4 && (bitToCheck < 64 ==> forall b :: 0 <= b < 64 ==> lastMask[b]))
    }

    /** Bit b of the word in hand is the one for pixel 64 (mask - 1) + b. */
    ghost predicate InHand()
      reads this
    {
      forall b :: 0 <= b < 64 && 64 <= 64 * mask + b < Cover(px) + 64 ==> lastMask[b] == Same(px, 64 * mask + b - 64)
    }

    constructor (row: DeltaBitmapRow, ghost px: seq<Pixel>)
      requires row.Encodes(px)
      ensures this.row == row && this.px == px && At(1)
    {
      this.row := row;
      this.px := px;
      mask, lastPix, lastMask, bitToCheck, rlePtr := 0, TRANSPARENT, ZeroWord(), 64, 0;
      new;
      OpenAt(0, WRAPS);
      Next(0);
    }

    /** The slow path: take the next mask word when the bit has been shifted out. */
    method LoadMask(ghost n: nat)
      requires row.Encodes(px) && mask <= 4 && 1 <= bitToCheck <= 64
      requires if n <= MASKED then n + 64 == 64 * mask + bitToCheck && InHand()
               else mask == 4 && (bitToCheck < 64 ==> forall b :: 0 <= b < 64 ==> lastMask[b])
      modifies `mask, `lastMask, `bitToCheck
      ensures mask <= 4 && bitToCheck < 64
      ensures if n < MASKED then n + 64 == 64 * mask + bitToCheck && InHand()
              else mask == 4 && forall b :: 0 <= b < 64 ==> lastMask[b]
    {
      if bitToCheck == 64 {
        if mask < 4 {
          row.OpenEncodes(px, WRAPS);
          lastMask := row.rleMask[mask];
          assert lastMask == MaskWord(px, mask);
          mask := mask + 1;
        } else {
          lastMask := OnesWord();
        }
        bitToCheck := 0;
      }
    }

    method Next(ghost n: nat)
      requires At(n)
      modifies this
      ensures At(n + 1)
    {
      OpenAt(n, WRAPS);
      row.OpenEncodes(px, WRAPS);
      Advance(n);
      OpenAt(n + 1, WRAPS);
    }

    /** The body of `next`. */
    method Advance(ghost n: nat)
      requires InStep(n) && row.rleData == RowData(px)
      modifies this
      ensures InStep(n + 1)
    {
      NextPixel(px, n);
      NextPixel(px, n + 1);
      if rlePtr == |row.rleData| {
        return;
      }
      LoadMask(n);
      if !lastMask[bitToCheck] {
        lastPix := row.rleData[rlePtr];
        rlePtr := rlePtr + 1;
      }
      bitToCheck := bitToCheck + 1;
    }

    method GetPixel(ghost n: nat) returns (p: Pixel)
      requires At(n + 1)
      ensures p == Shown(px, n + 1)
      ensures n < |px| <= MASKED ==> p == px[n]
    {
      OpenAt(n + 1, WRAPS);
      p := lastPix;
    }
  }
}
