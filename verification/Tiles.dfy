/** Tiles: rectangles of pixels, their encoded rows and their decoded images. */
module Tiles {
  import opened Pixels
  import opened Seqs
  import opened BitmapRows
  import opened DeltaFormat

  type Rows = seq<seq<Pixel>>

  predicate AllWide(rows: Rows, width: nat) {
    forall y :: 0 <= y < |rows| ==> |rows[y]| == width
  }

  /** A tile of `height` rows of `width` pixels. */
  datatype Tile = Tile(width: nat, rows: Rows) {
    predicate Valid() {
      AllWide(rows, width)
    }
  }

  /** What the client shows for rows of pixels. */
  function ImageOf(rows: Rows, mode: TileMode): (img: Image)
    ensures |img| == |rows|
  {
    if rows == [] then [] else ImageOf(rows[..|rows| - 1], mode) + [SentBytes(rows[|rows| - 1], mode)]
  }

  lemma {:induction false} ImageAt(rows: Rows, mode: TileMode, y: nat)
    requires y < |rows|
    ensures ImageOf(rows, mode)[y] == SentBytes(rows[y], mode)
  {
    if y < |rows| - 1 {
      ImageAt(rows[..|rows| - 1], mode, y);
    }
  }

  lemma {:induction false} ImageUpdate(rows: Rows, mode: TileMode, y: nat, row: seq<Pixel>)
    requires y < |rows|
    ensures ImageOf(rows[y := row], mode) == ImageOf(rows, mode)[y := SentBytes(row, mode)]
  {
    var n := |rows| - 1;
    if y < n {
      ImageUpdate(rows[..n], mode, y, row);
      assert rows[y := row][..n] == rows[..n][y := row];
    } else {
      assert rows[y := row][..n] == rows[..n];
    }
  }

  lemma {:induction false} ImageShaped(rows: Rows, mode: TileMode, width: nat)
    requires AllWide(rows, width)
    ensures Shaped(ImageOf(rows, mode), 4 * width, |rows|)
  {
    forall y | 0 <= y < |rows| ensures |ImageOf(rows, mode)[y]| == 4 * width {
      ImageAt(rows, mode, y);
    }
  }

  /** The encoded rows of a tile, each the encoding of its pixels. */
  ghost predicate RowsEncode(enc: seq<DeltaBitmapRow>, rows: Rows) {
    |enc| == |rows| && forall y :: 0 <= y < |enc| ==> enc[y].Encodes(rows[y])
  }

  // ---------- cutting a tile out of the pixmap ----------

  /** Where row y of the tile starts in the pixmap. */
  function Position(startX: nat, startY: nat, bufferWidth: nat, y: nat): nat {
    (startY + y) * bufferWidth + startX
  }

  predicate Fits2D(pixels: nat, startX: nat, startY: nat, width: nat, height: nat, bufferWidth: nat,
                   bufferHeight: nat) {
    startX + width <= bufferWidth && startY + height <= bufferHeight && pixels == bufferHeight * bufferWidth
  }

  /** Every row of a sub-rectangle that fits lies inside the pixmap. */
  lemma {:induction false} PositionInside(startX: nat, startY: nat, width: nat, height: nat, bufferWidth: nat,
      bufferHeight: nat, y: nat)
    requires Fits2D(bufferHeight * bufferWidth, startX, startY, width, height, bufferWidth, bufferHeight) && y < height
    ensures Position(startX, startY, bufferWidth, y) + width <= bufferHeight * bufferWidth
  {
    var r := startY + y;
    assert r + 1 <= bufferHeight;
    MulMonotone(r + 1, bufferHeight, bufferWidth);
  }

  lemma {:induction false} MulMonotone(a: nat, b: nat, w: nat)
    requires a <= b
    ensures a * w <= b * w
  {
  }

  function SubRows(pixmap: seq<Pixel>, startX: nat, startY: nat, width: nat, height: nat, bufferWidth: nat,
      bufferHeight: nat): (rows: Rows)
    requires Fits2D(|pixmap|, startX, startY, width, height, bufferWidth, bufferHeight)
    ensures |rows| == height && AllWide(rows, width)
  {
    if height == 0 then [] else
      PositionInside(startX, startY, width, height, bufferWidth, bufferHeight, height - 1);
      var at := Position(startX, startY, bufferWidth, height - 1);
      SubRows(pixmap, startX, startY, width, height - 1, bufferWidth, bufferHeight) + [pixmap[at..at + width]]
  }

  /** Pixel by pixel: row y of the tile is a piece of row startY + y of the pixmap. */
  lemma {:induction false} SubRowsAt(pixmap: seq<Pixel>, startX: nat, startY: nat, width: nat, height: nat,
      bufferWidth: nat, bufferHeight: nat, y: nat, x: nat)
    requires Fits2D(|pixmap|, startX, startY, width, height, bufferWidth, bufferHeight) && y < height && x < width
    ensures (startY + y) * bufferWidth + startX + x < |pixmap|
    ensures SubRows(pixmap, startX, startY, width, height, bufferWidth, bufferHeight)[y][x] ==
              pixmap[(startY + y) * bufferWidth + startX + x]
  {
    PositionInside(startX, startY, width, height, bufferWidth, bufferHeight, y);
    if y < height - 1 {
      SubRowsAt(pixmap, startX, startY, width, height - 1, bufferWidth, bufferHeight, y, x);
    }
  }

  /** The first rows of the pixmap, all of it when there are no more. */
  lemma {:induction false} RowsJoined(pixmap: seq<Pixel>, width: nat, height: nat, bufferHeight: nat)
    requires height <= bufferHeight && |pixmap| == bufferHeight * width
    ensures height * width <= |pixmap|
    ensures Joined(SubRows(pixmap, 0, 0, width, height, width, bufferHeight)) == pixmap[..height * width]
  {
    MulMonotone(height, bufferHeight, width);
    if height > 0 {
      RowsJoined(pixmap, width, height - 1, bufferHeight);
      PositionInside(0, 0, width, height, width, bufferHeight, height - 1);
      var at := (height - 1) * width;
      assert at + width == height * width;
      var last := pixmap[at..at + width];
      JoinedSnoc(SubRows(pixmap, 0, 0, width, height - 1, width, bufferHeight), last);
      SliceAppend(pixmap, 0, at, at + width);
    }
  }

  /** A tile as large as the pixmap is the pixmap. */
  lemma {:induction false} WholePixmap(pixmap: seq<Pixel>, width: nat, height: nat)
    requires |pixmap| == height * width
    ensures Joined(SubRows(pixmap, 0, 0, width, height, width, height)) == pixmap
  {
    RowsJoined(pixmap, width, height, height);
  }

  /** Unique location of a tile. */
  datatype TileLocation = TileLocation(left: int, top: int, size: int, part: int, canonicalViewId: int, viewMode: int)

  /** A bitmap tile with encoded rows and details on its location. */
  class DeltaData {
    const loc: TileLocation
    var inUse: bool
    var wid: nat
    var width: nat
    var height: nat
    var rows: seq<DeltaBitmapRow>
    /** The pixels the rows encode. */
    ghost var tile: Tile

    ghost predicate Valid()
      reads this
    {
      tile.Valid() && width == tile.width && height == |tile.rows| && RowsEncode(rows, tile.rows)
    }

    predicate SameSize(t: Tile)
      reads this
    {
      width == t.width && height == |t.rows|
    }

    constructor (wid: nat, pixmap: seq<Pixel>, startX: nat, startY: nat, width: nat, height: nat,
                 loc: TileLocation, bufferWidth: nat, bufferHeight: nat, simd: SimdTables?)
      requires Fits2D(|pixmap|, startX, startY, width, height, bufferWidth, bufferHeight)
      requires simd != null ==> simd.Valid()
      ensures Valid() && !inUse && this.loc == loc && this.wid == wid
      ensures tile == Tile(width, SubRows(pixmap, startX, startY, width, height, bufferWidth, bufferHeight))
    {
      this.loc := loc;
      this.inUse := false;
      this.wid := wid;
      this.width := width;
      this.height := height;
      var enc: seq<DeltaBitmapRow> := [];
      ghost var done: Rows := [];
      var y: nat := 0;
      while y < height
        invariant y <= height && |enc| == y && RowsEncode(enc, done)
        invariant done == SubRows(pixmap, startX, startY, width, y, bufferWidth, bufferHeight)
      {
        PositionInside(startX, startY, width, height, bufferWidth, bufferHeight, y);
        var position := Position(startX, startY, bufferWidth, y);
        var row := new DeltaBitmapRow(pixmap[position..position + width], simd);
        enc := enc + [row];
        done := done + [pixmap[position..position + width]];
        y := y + 1;
      }
      this.rows := enc;
      this.tile := Tile(width, done);
    }

    /** Takes over what the replacement holds; the location stays. */
    method ReplaceAndFree(repl: DeltaData)
      requires repl.loc == loc && repl != this && repl.Valid()
      modifies this, repl
      ensures Valid() && tile == old(repl.tile) && wid == old(repl.wid) && inUse == old(inUse)
      ensures repl.rows == []
    {
      wid := repl.wid;
      width := repl.width;
      height := repl.height;
      rows := repl.rows;
      tile := repl.tile;
      repl.rows := [];
    }

    /** Marks the entry; no other thread may have it. */
    method Use()
      requires !inUse
      modifies `inUse
      ensures inUse
    {
      inUse := true;
    }

    method Unuse()
      requires inUse
      modifies `inUse
      ensures !inUse
    {
      inUse := false;
    }
  }
}
