/** How the client reads a keyframe: `unrle` (browser/src/layer/tile/CanvasTileUtils.ts), the same
    format as `expand` (kit/Delta.hpp). */
module ClientKeyframe {
  import opened Pixels
  import opened Seqs
  import opened RowCodec
  import opened DeltaFormat
  import opened Tiles

  // ---------- the reader, row by row ----------

  /** Reading past the end of the data gives nothing, stored as zero. */
  function ByteAt(data: seq<Byte>, i: nat): Byte {
    if i < |data| then data[i] else 0
  }

  /** The last pixel and where the next one is. */
  datatype Unrle = Unrle(last: seq<Byte>, src: nat)

  function FourBytes(data: seq<Byte>, i: nat): (r: seq<Byte>)
    ensures |r| == 4
  {
    [ByteAt(data, i), ByteAt(data, i + 1), ByteAt(data, i + 2), ByteAt(data, i + 3)]
  }

  /** One pixel: the mask bit says whether it repeats the last one. */
  function UnrleStep(data: seq<Byte>, rleMask: nat, s: Unrle, x: nat): Unrle {
    if TestBit(ByteAt(data, rleMask + x / 8), x % 8) then s else Unrle(FourBytes(data, s.src), s.src + 4)
  }

  /** The reader of the row at position `at` after x pixels. */
  function UnrleAt(data: seq<Byte>, at: nat, x: nat): Unrle {
    if x == 0 then Unrle([0, 0, 0, 0], at + 34) else UnrleStep(data, at + 2, UnrleAt(data, at, x - 1), x - 1)
  }

  lemma {:induction false} UnrleFour(data: seq<Byte>, at: nat, x: nat)
    ensures |UnrleAt(data, at, x).last| == 4
  {
    if x > 0 {
      UnrleFour(data, at, x - 1);
    }
  }

  function UnrleRow(data: seq<Byte>, at: nat, width: nat): seq<Byte> {
    if width == 0 then [] else UnrleRow(data, at, width - 1) + UnrleAt(data, at, width).last
  }

  /** Where row y starts: each row says how many pixels it stores. */
  function RowStart(data: seq<Byte>, y: nat): nat {
    if y == 0 then 0 else
      var at := RowStart(data, y - 1);
      at + 34 + 4 * (ByteAt(data, at) + 256 * ByteAt(data, at + 1))
  }

  function UnrleImage(data: seq<Byte>, width: nat, height: nat): (img: Image)
    ensures |img| == height
  {
    if height == 0 then [] else
      UnrleImage(data, width, height - 1) + [UnrleRow(data, RowStart(data, height - 1), width)]
  }

  // ---------- the writer ----------

  /** A keyframe: the packed rows one after the other. */
  function KeyframeBytes(rows: Rows, mode: TileMode): seq<Byte> {
    if rows == [] then [] else
      var n := |rows| - 1;
      KeyframeBytes(rows[..n], mode) + PackedRow(RowMasks(rows[n]), RowData(rows[n]), mode)
  }

  // ---------- the reader reads what the writer wrote ----------

  /** The bytes of a packed row stand at position `at`. */
  ghost predicate PackedAt(data: seq<Byte>, at: nat, px: seq<Pixel>, mode: TileMode) {
    var row := PackedRow(RowMasks(px), RowData(px), mode);
    at + |row| <= |data| && data[at..at + |row|] == row
  }

  lemma {:induction false} AtOffset(data: seq<Byte>, at: nat, row: seq<Byte>, i: nat)
    requires at + |row| <= |data| && data[at..at + |row|] == row && i < |row|
    ensures ByteAt(data, at + i) == row[i]
  {
    assert data[at..at + |row|][i] == data[at + i];
  }

  lemma {:induction false} SliceOffset(data: seq<Byte>, at: nat, row: seq<Byte>, i: nat)
    requires at + |row| <= |data| && data[at..at + |row|] == row && i + 4 <= |row|
    ensures FourBytes(data, at + i) == row[i..i + 4]
  {
    AtOffset(data, at, row, i);
    AtOffset(data, at, row, i + 1);
    AtOffset(data, at, row, i + 2);
    AtOffset(data, at, row, i + 3);
  }

  /** Byte j of mask word q. */
  lemma {:induction false} MaskBlockAt(masks: Masks, q: nat, j: nat)
    requires q < 4 && j < 8
    ensures MaskBlockBytes(masks)[8 * q + j] == WordBytes(masks[q])[j]
  {
  }

  lemma {:induction false} PackedMask(px: seq<Pixel>, mode: TileMode, i: nat)
    requires i < 32
    ensures PackedRow(RowMasks(px), RowData(px), mode)[2 + i] == MaskBlockBytes(RowMasks(px))[i]
  {
  }

  lemma {:induction false} WordBytesBit(w: Word, j: nat, k: nat)
    requires j < 8 && k < 8
    ensures TestBit(WordBytes(w)[j], k) == w[8 * j + k]
  {
    assert w[8 * j..8 * j + 8][k] == w[8 * j + k];
  }

  lemma {:induction false} PackedMaskBit(px: seq<Pixel>, mode: TileMode, q: nat, j: nat, k: nat)
    requires q < 4 && j < 8 && k < 8
    ensures TestBit(PackedRow(RowMasks(px), RowData(px), mode)[2 + (8 * q + j)], k) == RowMasks(px)[q][8 * j + k]
  {
    PackedMask(px, mode, 8 * q + j);
    MaskBlockAt(RowMasks(px), q, j);
    WordBytesBit(RowMasks(px)[q], j, k);
  }

  lemma {:induction false} BitPlaces(x: nat)
    requires x < 256
    ensures x / 8 == 8 * (x / 64) + (x % 64) / 8 && 8 * ((x % 64) / 8) + x % 8 == x % 64
    ensures x / 64 < 4 && (x % 64) / 8 < 8
  {
  }

  /** The byte-wise mask test agrees with the 64-bit one. */
  lemma {:induction false} PackedBit(data: seq<Byte>, at: nat, px: seq<Pixel>, mode: TileMode, x: nat)
    requires PackedAt(data, at, px, mode) && x < Cover(px)
    ensures TestBit(ByteAt(data, at + 2 + x / 8), x % 8) == Same(px, x)
  {
    BitPlaces(x);
    AtOffset(data, at, PackedRow(RowMasks(px), RowData(px), mode), 2 + x / 8);
    PackedMaskBit(px, mode, x / 64, (x % 64) / 8, x % 8);
    MaskBit(px, x);
  }

  lemma {:induction false} PackedPixel(px: seq<Pixel>, mode: TileMode, k: nat)
    requires k < |RowData(px)|
    ensures PackedRow(RowMasks(px), RowData(px), mode)[34 + 4 * k..34 + 4 * k + 4]
         == PixelBytes(ConvertPixel(RowData(px)[k], mode))
  {
    var head := [U8(|RowData(px)| % 256), U8(|RowData(px)| / 256)] + MaskBlockBytes(RowMasks(px));
    var sent := SentBytes(RowData(px), mode);
    SentBytesAt(RowData(px), mode, k);
    SliceBehind(head, sent, 4 * k, 4 * k + 4);
  }

  /** A packed row: how many pixels it stores, low byte first; 32 bytes with a bit for each pixel
      that repeats its left neighbour, lowest bit first; and the stored pixels, as they are sent. */
  lemma {:induction false} PackedRowLayout(px: seq<Pixel>, mode: TileMode, k: nat)
    ensures var row, data := PackedRow(RowMasks(px), RowData(px), mode), RowData(px);
            && |row| == 34 + 4 * |data| && row[0] == |data| % 256 && row[1] == |data| / 256 % 256
            && (k < |px| && k < 256 ==>
                 (TestBit(row[2 + k / 8], k % 8) <==> px[k] == if k == 0 then Pixel(0, 0, 0, 0) else px[k - 1]))
            && (k < |data| ==>
                 row[34 + 4 * k..34 + 4 * k + 4] ==
                   if mode == BGRA then [data[k].b2, data[k].b1, data[k].b0, data[k].b3]
                   else [data[k].b0, data[k].b1, data[k].b2, data[k].b3])
  {
    if k < |px| && k < 256 {
      BitPlaces(k);
      PackedMaskBit(px, mode, k / 64, (k % 64) / 8, k % 8);
      MaskBit(px, k);
    }
    if k < |RowData(px)| {
      PackedPixel(px, mode, k);
    }
  }

  /** Where the reader should stand after x pixels. */
  function UnrleGoal(at: nat, px: seq<Pixel>, mode: TileMode, x: nat): Unrle {
    Unrle(PixelBytes(ConvertPixel(Shown(px, x), mode)), at + 34 + 4 * Consumed(px, x))
  }

  lemma {:induction false} UnrleRepeats(data: seq<Byte>, at: nat, px: seq<Pixel>, mode: TileMode, x: nat)
    requires PackedAt(data, at, px, mode) && x < Cover(px) && Same(px, x)
    ensures UnrleStep(data, at + 2, UnrleGoal(at, px, mode, x), x) == UnrleGoal(at, px, mode, x + 1)
  {
    PackedBit(data, at, px, mode, x);
    NextPixel(px, x);
  }

  lemma {:induction false} UnrleTakes(data: seq<Byte>, at: nat, px: seq<Pixel>, mode: TileMode, x: nat)
    requires PackedAt(data, at, px, mode) && x < Cover(px) && !Same(px, x)
    ensures UnrleStep(data, at + 2, UnrleGoal(at, px, mode, x), x) == UnrleGoal(at, px, mode, x + 1)
  {
    PackedBit(data, at, px, mode, x);
    NextPixel(px, x);
    var k := Consumed(px, x);
    PackedPixel(px, mode, k);
    SliceOffset(data, at, PackedRow(RowMasks(px), RowData(px), mode), 34 + 4 * k);
    assert Shown(px, x + 1) == px[x] == RowData(px)[k];
  }

  /** After x pixels the reader stands where the 64-bit reader does. */
  lemma {:induction false} UnrleReads(data: seq<Byte>, at: nat, px: seq<Pixel>, mode: TileMode, x: nat)
    requires PackedAt(data, at, px, mode) && x <= Cover(px)
    ensures UnrleAt(data, at, x) == UnrleGoal(at, px, mode, x)
  {
    if x > 0 {
      UnrleReads(data, at, px, mode, x - 1);
      if Same(px, x - 1) {
        UnrleRepeats(data, at, px, mode, x - 1);
      } else {
        UnrleTakes(data, at, px, mode, x - 1);
      }
    }
  }

  /** Reading a packed row gives back its pixels in RGBA order. */
  lemma {:induction false} UnrleRowReads(data: seq<Byte>, at: nat, px: seq<Pixel>, mode: TileMode, x: nat)
    requires PackedAt(data, at, px, mode) && x <= |px| <= MASKED
    ensures UnrleRow(data, at, x) == SentBytes(px[..x], mode)
  {
    if x > 0 {
      UnrleRowReads(data, at, px, mode, x - 1);
      UnrleReads(data, at, px, mode, x);
      assert px[..x][..x - 1] == px[..x - 1];
    }
  }

  lemma {:induction false} PackedSize(data: seq<Byte>, at: nat, px: seq<Pixel>, mode: TileMode)
    requires PackedAt(data, at, px, mode) && |px| <= MASKED
    ensures ByteAt(data, at) + 256 * ByteAt(data, at + 1) == |RowData(px)|
  {
    var row := PackedRow(RowMasks(px), RowData(px), mode);
    AtOffset(data, at, row, 0);
    AtOffset(data, at, row, 1);
    assert |RowData(px)| <= |px|;
  }

  lemma {:induction false} WholeRowReads(data: seq<Byte>, at: nat, px: seq<Pixel>, mode: TileMode)
    requires PackedAt(data, at, px, mode) && |px| <= MASKED
    ensures UnrleRow(data, at, |px|) == SentBytes(px, mode)
  {
    UnrleRowReads(data, at, px, mode, |px|);
    assert px[..|px|] == px;
  }

  lemma {:induction false} OneMoreRow(data: seq<Byte>, width: nat, n: nat, px: seq<Pixel>, mode: TileMode)
    requires PackedAt(data, RowStart(data, n), px, mode) && |px| == width <= MASKED
    ensures UnrleImage(data, width, n + 1) == UnrleImage(data, width, n) + [SentBytes(px, mode)]
    ensures RowStart(data, n + 1) == RowStart(data, n) + |PackedRow(RowMasks(px), RowData(px), mode)|
  {
    WholeRowReads(data, RowStart(data, n), px, mode);
    PackedSize(data, RowStart(data, n), px, mode);
  }

  lemma {:induction false} KeyframeSplit(rows: Rows, mode: TileMode, data: seq<Byte>)
    requires rows != [] && KeyframeBytes(rows, mode) <= data
    ensures var n := |rows| - 1;
            var at := |KeyframeBytes(rows[..n], mode)|;
            KeyframeBytes(rows[..n], mode) <= data && PackedAt(data, at, rows[n], mode) &&
            |KeyframeBytes(rows, mode)| == at + |PackedRow(RowMasks(rows[n]), RowData(rows[n]), mode)|
  {
    var n := |rows| - 1;
    PrefixThen(KeyframeBytes(rows[..n], mode), PackedRow(RowMasks(rows[n]), RowData(rows[n]), mode), data);
  }

  /** The reader shows exactly the first n rows and stands behind them. */
  ghost predicate ReadRows(data: seq<Byte>, width: nat, rows: Rows, mode: TileMode) {
    UnrleImage(data, width, |rows|) == ImageOf(rows, mode) && RowStart(data, |rows|) == |KeyframeBytes(rows, mode)|
  }

  lemma {:induction false} ReadRowsSnoc(data: seq<Byte>, width: nat, rows: Rows, mode: TileMode)
    requires rows != [] && KeyframeBytes(rows, mode) <= data && |rows[|rows| - 1]| == width <= MASKED
    requires ReadRows(data, width, rows[..|rows| - 1], mode)
    ensures ReadRows(data, width, rows, mode)
  {
    KeyframeSplit(rows, mode, data);
    OneMoreRow(data, width, |rows| - 1, rows[|rows| - 1], mode);
  }

  /** The client shows exactly the pixels of the keyframe, and finds its end. */
  lemma {:induction false} KeyframeRoundTrip(rows: Rows, mode: TileMode, width: nat, data: seq<Byte>)
    requires AllWide(rows, width) && width <= MASKED && KeyframeBytes(rows, mode) <= data
    ensures UnrleImage(data, width, |rows|) == ImageOf(rows, mode)
    ensures RowStart(data, |rows|) == |KeyframeBytes(rows, mode)|
  {
    if rows != [] {
      KeyframeSplit(rows, mode, data);
      KeyframeRoundTrip(rows[..|rows| - 1], mode, width, data);
      ReadRowsSnoc(data, width, rows, mode);
    }
  }
}
