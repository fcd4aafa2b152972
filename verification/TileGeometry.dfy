/** Where the tiles of a batch lie in the pixmap that covers them all. */
module TileGeometry {
  import opened Numbers
  import opened Seqs
  import opened Tiles
  import opened Rectangles

  /** Where a tile starts; a descriptor of a tile refuses negative ones. */
  type Position = n: int | 0 <= n <= 0x7fff_ffff

  /** A tile to render. */
  datatype TileDesc = TileDesc(posX: Position, posY: Position, forced: bool, preview: bool)

  /** Tiles of one size to be rendered together. */
  datatype TileCombined = TileCombined(tiles: seq<TileDesc>, tileWidth: Coord, tileHeight: Coord, width: nat,
                                       height: nat, part: int, editMode: int)

  // ---------- one axis ----------

  function Xs(tiles: seq<TileDesc>): (r: seq<Coord>)
    ensures |r| == |tiles| && forall i :: 0 <= i < |r| ==> r[i] == tiles[i].posX
  {
    if tiles == [] then [] else Xs(tiles[..|tiles| - 1]) + [tiles[|tiles| - 1].posX]
  }

  function Ys(tiles: seq<TileDesc>): (r: seq<Coord>)
    ensures |r| == |tiles| && forall i :: 0 <= i < |r| ==> r[i] == tiles[i].posY
  {
    if tiles == [] then [] else Ys(tiles[..|tiles| - 1]) + [tiles[|tiles| - 1].posY]
  }

  /** The range from lo to hi is the smallest that holds everything from a start to its end. */
  ghost predicate Spans(at: seq<Coord>, extent: Coord, lo: Coord, hi: Coord)
    requires 0 <= extent
  {
    && (forall i :: 0 <= i < |at| ==> lo <= at[i] && FarEnd(at[i], extent) <= hi)
    && (exists i :: 0 <= i < |at| && at[i] == lo)
    && exists i :: 0 <= i < |at| && FarEnd(at[i], extent) == hi
  }

  /** In which slot of the range something starts. */
  function Slot(at: int, lo: int, extent: int): nat
    requires 0 < extent && lo <= at
  {
    Quotient(at - lo, extent)
  }

  /** How many whole slots the range has. */
  function Slots(lo: int, hi: int, extent: int): nat
    requires 0 < extent && lo <= hi
  {
    Quotient(hi - lo, extent)
  }

  function Quotient(a: int, w: int): (q: nat)
    requires 0 <= a && 0 < w
    ensures q * w <= a < q * w + w
  {
    QuotientBounds(a, w);
    a / w
  }

  lemma {:induction false} QuotientBounds(a: int, w: int)
    requires 0 <= a && 0 < w
    ensures 0 <= a / w && a / w * w <= a < a / w * w + w
  {
  }

  lemma {:induction false} Cancel(p: nat, q: nat, w: nat)
    requires p * w < q * w
    ensures p < q
  {
    if q <= p {
      MulMonotone(q, p, w);
    }
  }

  /** What does not overflow lies in a slot of its own inside the range. */
  lemma {:induction false} SlotInside(at: Coord, extent: Coord, lo: Coord, hi: Coord)
    requires 0 < extent && lo <= at && at + extent <= hi
    ensures Slot(at, lo, extent) + 1 <= Slots(lo, hi, extent)
  {
    var p, q := Slot(at, lo, extent), Slots(lo, hi, extent);
    assert p * extent + extent <= at - lo + extent <= hi - lo < q * extent + extent;
    Cancel(p, q, extent);
  }

  /** Something that starts a whole number of slots from the start of the range. */
  predicate Aligned(at: int, lo: int, extent: int)
    requires 0 < extent && lo <= at
  {
    Slot(at, lo, extent) * extent == at - lo
  }

  lemma {:induction false} SlotOutside(at: Coord, extent: Coord, lo: Coord, hi: Coord)
    requires 0 < extent && lo <= at <= hi && hi < at + extent && Aligned(at, lo, extent)
    ensures Slots(lo, hi, extent) < Slot(at, lo, extent) + 1
  {
    var p, q := Slot(at, lo, extent), Slots(lo, hi, extent);
    assert (p + 1) * extent == p * extent + extent;
    Cancel(q, p + 1, extent);
  }

  /** Everything lies inside the range. */
  ghost predicate AllInside(at: seq<Coord>, extent: Coord, lo: Coord, hi: Coord)
    requires 0 < extent && lo <= hi && forall i :: 0 <= i < |at| ==> lo <= at[i]
  {
    forall i :: 0 <= i < |at| ==> Slot(at[i], lo, extent) + 1 <= Slots(lo, hi, extent)
  }

  lemma {:induction false} AllInsideWithoutOverflow(at: seq<Coord>, extent: Coord, lo: Coord, hi: Coord)
    requires 0 < extent && lo <= hi && Spans(at, extent, lo, hi)
    requires forall i :: 0 <= i < |at| ==> at[i] + extent <= INT_MAX
    ensures AllInside(at, extent, lo, hi)
  {
    forall i | 0 <= i < |at| ensures Slot(at[i], lo, extent) + 1 <= Slots(lo, hi, extent) {
      SlotInside(at[i], extent, lo, hi);
    }
  }

  /** On a grid, everything lies inside if and only if no end overflowed: the addition that is then
      dropped leaves the range too short. */
  lemma {:induction false} AllInsideIff(at: seq<Coord>, extent: Coord, lo: Coord, hi: Coord)
    requires 0 < extent && lo <= hi && Spans(at, extent, lo, hi)
    requires forall i :: 0 <= i < |at| ==> Aligned(at[i], lo, extent)
    ensures AllInside(at, extent, lo, hi) <==> forall i :: 0 <= i < |at| ==> at[i] + extent <= INT_MAX
  {
    if i :| 0 <= i < |at| && at[i] + extent > INT_MAX {
      SlotOutside(at[i], extent, lo, hi);
    } else {
      AllInsideWithoutOverflow(at, extent, lo, hi);
    }
  }

  /** On a grid, different starts have different slots, in the same order. */
  lemma {:induction false} SlotsApart(a: Coord, b: Coord, lo: Coord, extent: Coord)
    requires 0 < extent && lo <= a < b && Aligned(a, lo, extent) && Aligned(b, lo, extent)
    ensures Slot(a, lo, extent) + 1 <= Slot(b, lo, extent)
  {
    var p, q := Slot(a, lo, extent), Slot(b, lo, extent);
    if q <= p {
      MulMonotone(q, p, extent);
    }
  }

  // ---------- both axes ----------

  datatype Area = Area(left: Coord, top: Coord, right: Coord, bottom: Coord)

  /** The smallest area that encloses all tiles. */
  ghost predicate Covers(tc: TileCombined, area: Area)
    requires 0 < tc.tileWidth && 0 < tc.tileHeight
  {
    && Spans(Xs(tc.tiles), tc.tileWidth, area.left, area.right)
    && Spans(Ys(tc.tiles), tc.tileHeight, area.top, area.bottom)
    && area.left <= area.right && area.top <= area.bottom
  }

  ghost predicate Placed(tc: TileCombined, area: Area) {
    && 0 < tc.tileWidth && 0 < tc.tileHeight && area.left <= area.right && area.top <= area.bottom
    && forall i :: 0 <= i < |tc.tiles| ==> area.left <= tc.tiles[i].posX && area.top <= tc.tiles[i].posY
  }

  lemma {:induction false} CoversPlaces(tc: TileCombined, area: Area)
    requires 0 < tc.tileWidth && 0 < tc.tileHeight && Covers(tc, area)
    ensures Placed(tc, area)
  {
    forall i | 0 <= i < |tc.tiles| ensures area.left <= tc.tiles[i].posX && area.top <= tc.tiles[i].posY {
      assert area.left <= Xs(tc.tiles)[i] && area.top <= Ys(tc.tiles)[i];
    }
  }

  ghost function PixmapWidth(tc: TileCombined, area: Area): nat
    requires Placed(tc, area)
  {
    Slots(area.left, area.right, tc.tileWidth) * tc.width
  }

  ghost function PixmapHeight(tc: TileCombined, area: Area): nat
    requires Placed(tc, area)
  {
    Slots(area.top, area.bottom, tc.tileHeight) * tc.height
  }

  ghost function OffsetX(tc: TileCombined, area: Area, i: nat): nat
    requires Placed(tc, area) && i < |tc.tiles|
  {
    Slot(tc.tiles[i].posX, area.left, tc.tileWidth) * tc.width
  }

  ghost function OffsetY(tc: TileCombined, area: Area, i: nat): nat
    requires Placed(tc, area) && i < |tc.tiles|
  {
    Slot(tc.tiles[i].posY, area.top, tc.tileHeight) * tc.height
  }

  /** The pixels of a tile lie inside the pixmap. */
  ghost predicate TileFits(tc: TileCombined, area: Area, i: nat)
    requires Placed(tc, area) && i < |tc.tiles|
  {
    Fits2D(PixmapHeight(tc, area) * PixmapWidth(tc, area), OffsetX(tc, area, i), OffsetY(tc, area, i), tc.width,
           tc.height, PixmapWidth(tc, area), PixmapHeight(tc, area))
  }

  /** No right or bottom end of a tile overflows. */
  ghost predicate NoOverflow(tc: TileCombined) {
    forall i :: 0 <= i < |tc.tiles| ==>
      tc.tiles[i].posX + tc.tileWidth <= INT_MAX && tc.tiles[i].posY + tc.tileHeight <= INT_MAX
  }

  /** The tiles lie on a grid that starts at the top left corner of the area. */
  ghost predicate OnGrid(tc: TileCombined, area: Area)
    requires Placed(tc, area)
  {
    forall i :: 0 <= i < |tc.tiles| ==>
      Aligned(tc.tiles[i].posX, area.left, tc.tileWidth) && Aligned(tc.tiles[i].posY, area.top, tc.tileHeight)
  }

  lemma {:induction false} ScaledSlot(p: nat, q: nat, size: nat)
    requires 0 < size
    ensures p * size + size <= q * size <==> p + 1 <= q
  {
    assert (p + 1) * size == p * size + size;
    if p + 1 <= q {
      MulMonotone(p + 1, q, size);
    } else {
      MulMonotone(q, p, size);
    }
  }

  lemma {:induction false} FitsBySlots(tc: TileCombined, area: Area, i: nat)
    requires Placed(tc, area) && i < |tc.tiles| && 0 < tc.width && 0 < tc.height
    ensures TileFits(tc, area, i) <==>
              && Slot(tc.tiles[i].posX, area.left, tc.tileWidth) + 1 <= Slots(area.left, area.right, tc.tileWidth)
              && Slot(tc.tiles[i].posY, area.top, tc.tileHeight) + 1 <= Slots(area.top, area.bottom, tc.tileHeight)
  {
    ScaledSlot(Slot(tc.tiles[i].posX, area.left, tc.tileWidth), Slots(area.left, area.right, tc.tileWidth), tc.width);
    ScaledSlot(Slot(tc.tiles[i].posY, area.top, tc.tileHeight), Slots(area.top, area.bottom, tc.tileHeight), tc.height);
  }

  /** Every tile fits, wherever the tiles lie, when nothing overflows. */
  lemma {:induction false} TilesFit(tc: TileCombined, area: Area, i: nat)
    requires 0 < tc.tileWidth && 0 < tc.tileHeight && Covers(tc, area) && 0 < tc.width && 0 < tc.height
    requires NoOverflow(tc) && i < |tc.tiles|
    ensures Placed(tc, area) && TileFits(tc, area, i)
  {
    CoversPlaces(tc, area);
    AllInsideWithoutOverflow(Xs(tc.tiles), tc.tileWidth, area.left, area.right);
    AllInsideWithoutOverflow(Ys(tc.tiles), tc.tileHeight, area.top, area.bottom);
    assert Xs(tc.tiles)[i] == tc.tiles[i].posX && Ys(tc.tiles)[i] == tc.tiles[i].posY;
    FitsBySlots(tc, area, i);
  }

  /** On a grid, every tile fits if and only if nothing overflows. */
  lemma {:induction false} TilesFitIff(tc: TileCombined, area: Area)
    requires 0 < tc.tileWidth && 0 < tc.tileHeight && Covers(tc, area) && 0 < tc.width && 0 < tc.height
    requires Placed(tc, area) && OnGrid(tc, area)
    ensures (forall i :: 0 <= i < |tc.tiles| ==> TileFits(tc, area, i)) <==> NoOverflow(tc)
  {
    var xs, ys := Xs(tc.tiles), Ys(tc.tiles);
    AllInsideIff(xs, tc.tileWidth, area.left, area.right);
    AllInsideIff(ys, tc.tileHeight, area.top, area.bottom);
    forall i | 0 <= i < |tc.tiles| {
      FitsBySlots(tc, area, i);
    }
    assert AllInside(xs, tc.tileWidth, area.left, area.right) <==>
           forall i :: 0 <= i < |tc.tiles| ==>
             Slot(tc.tiles[i].posX, area.left, tc.tileWidth) + 1 <= Slots(area.left, area.right, tc.tileWidth);
  }

  /** On a grid, a tile lies in the pixmap as far from its corner as it lies from that of the area. */
  lemma {:induction false} OffsetsScale(tc: TileCombined, area: Area, i: nat)
    requires Placed(tc, area) && OnGrid(tc, area) && i < |tc.tiles|
    ensures OffsetX(tc, area, i) * tc.tileWidth == (tc.tiles[i].posX - area.left) * tc.width
    ensures OffsetY(tc, area, i) * tc.tileHeight == (tc.tiles[i].posY - area.top) * tc.height
  {
    Rescaled(Slot(tc.tiles[i].posX, area.left, tc.tileWidth), tc.tileWidth, tc.width);
    Rescaled(Slot(tc.tiles[i].posY, area.top, tc.tileHeight), tc.tileHeight, tc.height);
  }

  lemma {:induction false} Rescaled(slot: nat, extent: nat, size: nat)
    ensures slot * size * extent == slot * extent * size
  {
    assert slot * size * extent == slot * (size * extent) == slot * (extent * size) == slot * extent * size;
  }

  /** On a grid, tiles at different places have no pixel in common. */
  lemma {:induction false} TilesDisjoint(tc: TileCombined, area: Area, i: nat, j: nat)
    requires Placed(tc, area) && OnGrid(tc, area) && i < |tc.tiles| && j < |tc.tiles|
    requires tc.tiles[i].posX != tc.tiles[j].posX || tc.tiles[i].posY != tc.tiles[j].posY
    requires 0 < tc.width && 0 < tc.height
    ensures OffsetX(tc, area, i) + tc.width <= OffsetX(tc, area, j)
         || OffsetX(tc, area, j) + tc.width <= OffsetX(tc, area, i)
         || OffsetY(tc, area, i) + tc.height <= OffsetY(tc, area, j)
         || OffsetY(tc, area, j) + tc.height <= OffsetY(tc, area, i)
  {
    var a, b := tc.tiles[i], tc.tiles[j];
    if a.posX != b.posX {
      ScaledApart(a.posX, b.posX, area.left, tc.tileWidth, tc.width);
    } else {
      ScaledApart(a.posY, b.posY, area.top, tc.tileHeight, tc.height);
    }
  }

  lemma {:induction false} ScaledApart(a: Coord, b: Coord, lo: Coord, extent: Coord, size: nat)
    requires 0 < extent && lo <= a && lo <= b && a != b && Aligned(a, lo, extent) && Aligned(b, lo, extent) && 0 < size
    ensures Slot(a, lo, extent) * size + size <= Slot(b, lo, extent) * size
         || Slot(b, lo, extent) * size + size <= Slot(a, lo, extent) * size
  {
    if a < b {
      SlotsApart(a, b, lo, extent);
    } else {
      SlotsApart(b, a, lo, extent);
    }
    ScaledSlot(Slot(a, lo, extent), Slot(b, lo, extent), size);
    ScaledSlot(Slot(b, lo, extent), Slot(a, lo, extent), size);
  }

  // ---------- computing the area ----------

  ghost predicate IsRect(r: Rectangle, tc: TileCombined, i: nat)
    requires i < |tc.tiles| && 0 < tc.tileWidth && 0 < tc.tileHeight
    reads r
  {
    && r.x1 == tc.tiles[i].posX && r.x2 == FarEnd(tc.tiles[i].posX, tc.tileWidth)
    && r.y1 == tc.tiles[i].posY && r.y2 == FarEnd(tc.tiles[i].posY, tc.tileHeight)
  }

  function Front(tc: TileCombined, n: nat): TileCombined
    requires n <= |tc.tiles|
  {
    tc.(tiles := tc.tiles[..n])
  }

  lemma {:induction false} SpansSnoc(at: seq<Coord>, extent: Coord, lo: Coord, hi: Coord, c: Coord, lo': Coord,
                                     hi': Coord)
    requires 0 <= extent && (at == [] || Spans(at, extent, lo, hi))
    requires lo' == (if at == [] || c < lo then c else lo)
    requires hi' == (if at == [] || FarEnd(c, extent) > hi then FarEnd(c, extent) else hi)
    ensures Spans(at + [c], extent, lo', hi')
  {
    var now := at + [c];
    assert now[|at|] == c;
    if at != [] {
      var i :| 0 <= i < |at| && at[i] == lo;
      var j :| 0 <= j < |at| && FarEnd(at[j], extent) == hi;
      assert now[i] == lo && now[j] == at[j];
    }
  }

  ghost function AreaOf(r: Rectangle): Area
    reads r
  {
    Area(r.x1, r.y1, r.x2, r.y2)
  }

  lemma {:induction false} CoversSnoc(tc: TileCombined, n: nat, area: Area, area': Area)
    requires 0 < tc.tileWidth && 0 < tc.tileHeight && n < |tc.tiles| && (n == 0 || Covers(Front(tc, n), area))
    requires var t := tc.tiles[n];
             && area'.left == (if n == 0 || t.posX < area.left then t.posX else area.left)
             && area'.top == (if n == 0 || t.posY < area.top then t.posY else area.top)
             && area'.right == (if n == 0 || FarEnd(t.posX, tc.tileWidth) > area.right then FarEnd(t.posX, tc.tileWidth)
                                else area.right)
             && area'.bottom == (if n == 0 || FarEnd(t.posY, tc.tileHeight) > area.bottom
                                 then FarEnd(t.posY, tc.tileHeight) else area.bottom)
    ensures Covers(Front(tc, n + 1), area')
  {
    var t := tc.tiles[n];
    TakeSnoc(tc.tiles, n);
    Parts(tc.tiles[..n], [t]);
    SpansSnoc(Xs(tc.tiles[..n]), tc.tileWidth, area.left, area.right, t.posX, area'.left, area'.right);
    SpansSnoc(Ys(tc.tiles[..n]), tc.tileHeight, area.top, area.bottom, t.posY, area'.top, area'.bottom);
  }

  lemma {:induction false} AreaOfFront(tc: TileCombined, n: nat) returns (area: Area)
    requires 0 < n <= |tc.tiles| && 0 < tc.tileWidth && 0 < tc.tileHeight
    ensures Covers(Front(tc, n), area)
  {
    var t := tc.tiles[n - 1];
    area := Area(t.posX, t.posY, FarEnd(t.posX, tc.tileWidth), FarEnd(t.posY, tc.tileHeight));
    if n > 1 {
      var a := AreaOfFront(tc, n - 1);
      area := Area(if t.posX < a.left then t.posX else a.left, if t.posY < a.top then t.posY else a.top,
                   if area.right > a.right then area.right else a.right,
                   if area.bottom > a.bottom then area.bottom else a.bottom);
      CoversSnoc(tc, n - 1, a, area);
    } else {
      CoversSnoc(tc, 0, area, area);
    }
  }

  /** A batch has a smallest area that encloses its tiles if and only if it has a tile. */
  lemma {:induction false} AreaExistsIff(tc: TileCombined)
    requires 0 < tc.tileWidth && 0 < tc.tileHeight
    ensures (exists area :: Covers(tc, area)) <==> tc.tiles != []
  {
    if tc.tiles != [] {
      var area := AreaOfFront(tc, |tc.tiles|);
      assert Front(tc, |tc.tiles|) == tc;
      assert Covers(tc, area);
    }
  }

  /** The division of `int`, which rounds towards zero. */
  function Truncated(a: int, w: int): int
    requires 0 < w
  {
    if 0 <= a then a / w else -(-a / w)
  }

  /** It is the quotient of the sizes, with the sign of the dividend. */
  lemma {:induction false} TruncatedMeans(a: int, w: int)
    requires 0 < w
    ensures 0 <= a ==> 0 <= Truncated(a, w) && Truncated(a, w) * w <= a < Truncated(a, w) * w + w
    ensures a < 0 ==> Truncated(a, w) == -Truncated(-a, w)
  {
    if 0 <= a {
      QuotientBounds(a, w);
    }
  }

  /** The conversion of an `int` to `size_t`. */
  function Unsigned(n: int): nat {
    n % SIZE_T
  }

  /** Without a tile the width of the area is INT_MIN, and the number of slots, a negative
      quotient converted to `size_t`, is of the order of 2^64. */
  lemma {:induction false} EmptyBatchSlots(extent: Coord)
    requires 0 < extent
    ensures Truncated(INT_MIN, extent) < 0
    ensures Unsigned(Truncated(INT_MIN, extent)) >= 0xffff_ffff_8000_0000
  {
    QuotientRange(-INT_MIN, extent);
  }

  lemma {:induction false} QuotientRange(a: int, w: int)
    requires 0 < w <= a
    ensures 1 <= a / w <= a
  {
    var q := Quotient(a, w);
    assert q == 0 ==> q * w == 0;
    MulMonotone(1, w, q);
  }

  /** The area that covers the first n tiles, wrapped. */
  ghost predicate CoversFront(tc: TileCombined, n: nat, area: Area, wraps: nat)
    requires 0 < tc.tileWidth && 0 < tc.tileHeight && n <= |tc.tiles|
  {
    if wraps > 0 then CoversFront(tc, n, area, wraps - 1) else n > 0 ==> Covers(Front(tc, n), area)
  }

  lemma {:induction false} OpenCoversFront(tc: TileCombined, n: nat, area: Area, wraps: nat)
    requires 0 < tc.tileWidth && 0 < tc.tileHeight && n <= |tc.tiles|
    ensures CoversFront(tc, n, area, wraps) <==> (n > 0 ==> Covers(Front(tc, n), area))
  {
    if wraps > 0 {
      OpenCoversFront(tc, n, area, wraps - 1);
    }
  }

  /** One turn of the loop: the rectangle of a tile, and the area grown by it. */
  method AddTile(tc: TileCombined, n: nat, area: Rectangle) returns (rectangle: Rectangle, renderArea: Rectangle)
    requires 0 < tc.tileWidth && 0 < tc.tileHeight && n < |tc.tiles|
    requires CoversFront(tc, n, AreaOf(area), WRAPS)
    modifies area
    ensures fresh(rectangle) && IsRect(rectangle, tc, n) && rectangle != renderArea
    ensures (renderArea == area || fresh(renderArea)) && CoversFront(tc, n + 1, AreaOf(renderArea), WRAPS)
  {
    renderArea := area;
    rectangle := new Rectangle(tc.tiles[n].posX, tc.tiles[n].posY, tc.tileWidth, tc.tileHeight);
    ghost var was := AreaOf(area);
    OpenCoversFront(tc, n, was, WRAPS);
    if n == 0 {
      renderArea := new Rectangle.Copy(rectangle);
    } else {
      renderArea.Extend(rectangle);
    }
    CoversSnoc(tc, n, was, AreaOf(renderArea));
    OpenCoversFront(tc, n + 1, AreaOf(renderArea), WRAPS);
  }

  ghost predicate AreRects(recs: seq<Rectangle>, tc: TileCombined)
    requires |recs| <= |tc.tiles| && 0 < tc.tileWidth && 0 < tc.tileHeight
    reads recs
  {
    forall i :: 0 <= i < |recs| ==> IsRect(recs[i], tc, i)
  }

  /** The rectangle of every tile, and the area they cover; without a tile, the area is inside out. */
  method CoverTiles(tc: TileCombined) returns (renderArea: Rectangle, tileRecs: seq<Rectangle>)
    requires 0 < tc.tileWidth && 0 < tc.tileHeight
    ensures fresh(renderArea) && |tileRecs| == |tc.tiles| && AreRects(tileRecs, tc)
    ensures tc.tiles != [] ==> Covers(tc, AreaOf(renderArea))
    ensures tc.tiles == [] ==>
              && AreaOf(renderArea) == Area(INT_MAX, INT_MAX, INT_MIN, INT_MIN)
              && renderArea.GetWidth() == INT_MIN && renderArea.GetHeight() == INT_MIN
  {
    tileRecs := [];
    renderArea := new Rectangle.Inverse();
    OpenCoversFront(tc, 0, AreaOf(renderArea), WRAPS);
    for n := 0 to |tc.tiles|
      invariant fresh(renderArea) && renderArea !in tileRecs
      invariant CoversFront(tc, n, AreaOf(renderArea), WRAPS)
      invariant |tileRecs| == n && AreRects(tileRecs, tc)
      invariant n == 0 ==> AreaOf(renderArea) == Area(INT_MAX, INT_MAX, INT_MIN, INT_MIN)
    {
      var rectangle;
      rectangle, renderArea := AddTile(tc, n, renderArea);
      tileRecs := tileRecs + [rectangle];
    }
    OpenCoversFront(tc, |tc.tiles|, AreaOf(renderArea), WRAPS);
    assert Front(tc, |tc.tiles|) == tc;
  }

  // ---------- a tile that does not fit ----------

  function FarTile(): TileCombined {
    TileCombined([TileDesc(INT_MAX, 0, false, false)], 1, 1, 2, 1, 0, 0)
  }

  lemma {:induction false} FarTileCovered()
    ensures Covers(FarTile(), Area(INT_MAX, 0, INT_MAX, 1)) && Placed(FarTile(), Area(INT_MAX, 0, INT_MAX, 1))
    ensures OnGrid(FarTile(), Area(INT_MAX, 0, INT_MAX, 1)) && !NoOverflow(FarTile())
  {
    var tc := FarTile();
    var xs, ys := Xs(tc.tiles), Ys(tc.tiles);
    assert xs[0] == INT_MAX && ys[0] == 0;
    assert FarEnd(xs[0], 1) == INT_MAX && FarEnd(ys[0], 1) == 1;
    assert tc.tiles[0].posX + tc.tileWidth > INT_MAX;
  }

  /** One tile at the far end of the coordinates: its right end overflows, and it does not fit. */
  lemma {:induction false} FarTileDoesNotFit()
    ensures Placed(FarTile(), Area(INT_MAX, 0, INT_MAX, 1))
    ensures !TileFits(FarTile(), Area(INT_MAX, 0, INT_MAX, 1), 0)
  {
    FarTileCovered();
    TilesFitIff(FarTile(), Area(INT_MAX, 0, INT_MAX, 1));
  }
}
