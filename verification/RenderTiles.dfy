/** Rendering a batch of tiles: the jobs, the output they share, and the messages cut from it.
    The jobs are run here one at a time, in any order of completion. */
module RenderTiles {
  import opened DeltaFormat
  import opened Numbers
  import opened Seqs
  import opened Pixels
  import opened Buffers
  import opened Tiles
  import opened Rectangles
  import opened TileGeometry
  import opened CacheProtocol
  import Generator = DeltaGenerator

  // ---------- the shared output ----------

  /** A rendered tile: which one, its wire id and the size of its image in the output. */
  datatype Rendered = Rendered(tile: nat, wid: nat, imgSize: nat)

  /** Images one after the other in one output, and their sizes. */
  ghost predicate InLine(tiles: seq<Rendered>, output: seq<Byte>, images: seq<seq<Byte>>) {
    && |images| == |tiles| && output == Joined(images)
    && forall i :: 0 <= i < |images| ==> tiles[i].imgSize == |images[i]|
  }

  class RenderOutput {
    var output: seq<Byte>
    var renderedTiles: seq<Rendered>
    /** The image of each rendered tile. */
    ghost var images: seq<seq<Byte>>

    ghost predicate Valid()
      reads this
    {
      InLine(renderedTiles, output, images)
    }

    constructor ()
      ensures Valid() && images == [] && renderedTiles == []
    {
      output, renderedTiles, images := [], [], [];
    }

    /** What a job does under the lock when its image is ready. */
    method PushRendered(tile: nat, wid: nat, data: seq<Byte>)
      requires Valid()
      modifies this
      ensures Valid() && images == old(images) + [data]
      ensures renderedTiles == old(renderedTiles) + [Rendered(tile, wid, |data|)]
    {
      JoinedSnoc(images, data);
      output := output + data;
      renderedTiles := renderedTiles + [Rendered(tile, wid, |data|)];
      images := images + [data];
    }

    /** One message per rendered tile: its header and its slice of the output. The slices
        line up with the images and leave nothing of the output over. */
    method SendEach(header: Rendered -> seq<Byte>) returns (sent: seq<seq<Byte>>, ghost rest: seq<Byte>)
      requires Valid()
      ensures |sent| == |renderedTiles|
      ensures forall i :: 0 <= i < |sent| ==> sent[i] == header(renderedTiles[i]) + images[i]
      ensures rest == []
    {
      sent := [];
      var outputOffset: nat := 0;
      for i := 0 to |renderedTiles|
        invariant |sent| == i && outputOffset == |Joined(images[..i])| <= |output|
        invariant forall k :: 0 <= k < i ==> sent[k] == header(renderedTiles[k]) + images[k]
      {
        JoinedPrefix(images, i);
        var t := renderedTiles[i];
        sent := sent + [header(t) + output[outputOffset..outputOffset + t.imgSize]];
        outputOffset := outputOffset + t.imgSize;
      }
      assert images[..|images|] == images;
      rest := output[outputOffset..];
    }

    /** One message for all: the sizes in its header cut the output back into the images. */
    method SendCombined(header: seq<Rendered> -> seq<Byte>) returns (sent: seq<Byte>)
      requires Valid()
      ensures sent == header(renderedTiles) + Joined(images)
    {
      sent := header(renderedTiles) + output;
    }
  }

  /** Where the image of a tile starts, by the sizes alone. */
  function OffsetOf(tiles: seq<Rendered>, n: nat): nat
    requires n <= |tiles|
  {
    if n == 0 then 0 else OffsetOf(tiles, n - 1) + tiles[n - 1].imgSize
  }

  /** Whatever images there are and in whatever order they came in, the sizes alone find each of
      them again, and together they cover all of the output. */
  lemma {:induction false} SizesFindImages(tiles: seq<Rendered>, images: seq<seq<Byte>>, n: nat)
    requires |tiles| == |images| && forall i :: 0 <= i < |images| ==> tiles[i].imgSize == |images[i]|
    requires n <= |images|
    ensures OffsetOf(tiles, n) == |Joined(images[..n])| <= |Joined(images)|
    ensures n < |images| ==> OffsetOf(tiles, n) + tiles[n].imgSize <= |Joined(images)| &&
                             Joined(images)[OffsetOf(tiles, n)..OffsetOf(tiles, n) + tiles[n].imgSize] == images[n]
    ensures n == |images| ==> OffsetOf(tiles, n) == |Joined(images)|
  {
    JoinedPrefix(images, n);
    if n > 0 {
      JoinedPrefix(images, n - 1);
      SizesFindImages(tiles, images, n - 1);
    }
    assert images[..|images|] == images;
  }

  // ---------- the jobs ----------

  /** One more than the largest wire id. */
  const WIRE_IDS: nat := 0x1_0000_0000

  /** The wire id of tile i of a batch: the counter is a `uint32_t`. */
  function WireId(lastWid: nat, i: nat): nat {
    (lastWid + 1 + i) % WIRE_IDS
  }

  /** What a job was queued with. */
  datatype Queued = Queued(offsetX: nat, offsetY: nat, loc: TileLocation, wid: nat)

  /** The size in the location is the width of the tile's rectangle. */
  function LocAt(tc: TileCombined, canonicalViewId: int, i: nat): TileLocation
    requires i < |tc.tiles| && 0 < tc.tileWidth
  {
    var x := tc.tiles[i].posX;
    TileLocation(x, tc.tiles[i].posY, FarEnd(x, tc.tileWidth) - x, tc.part, canonicalViewId, tc.editMode)
  }

  ghost function QueuedFor(tc: TileCombined, area: Area, canonicalViewId: int, lastWid: nat, i: nat): Queued
    requires Placed(tc, area) && i < |tc.tiles|
  {
    Queued(OffsetX(tc, area, i), OffsetY(tc, area, i), LocAt(tc, canonicalViewId, i), WireId(lastWid, i))
  }

  /** Whatever the two batches: without overflow, two tiles have one location exactly if position,
      width, part, view and edit mode agree. */
  lemma {:induction false} SameLocationIff(tc: TileCombined, view: int, i: nat, tc': TileCombined, view': int, i': nat)
    requires i < |tc.tiles| && 0 < tc.tileWidth && tc.tiles[i].posX + tc.tileWidth <= INT_MAX
    requires i' < |tc'.tiles| && 0 < tc'.tileWidth && tc'.tiles[i'].posX + tc'.tileWidth <= INT_MAX
    ensures LocAt(tc, view, i) == LocAt(tc', view', i') <==>
            && tc.tiles[i].posX == tc'.tiles[i'].posX && tc.tiles[i].posY == tc'.tiles[i'].posY
            && tc.tileWidth == tc'.tileWidth && tc.part == tc'.part && view == view' && tc.editMode == tc'.editMode
  {
  }

  method QueueJob(tc: TileCombined, renderArea: Rectangle, tileRect: Rectangle, canonicalViewId: int, lastWid: nat,
                  i: nat)
    returns (job: Queued)
    requires Placed(tc, AreaOf(renderArea)) && i < |tc.tiles| && IsRect(tileRect, tc, i)
    ensures job == QueuedFor(tc, AreaOf(renderArea), canonicalViewId, lastWid, i)
  {
    var positionX := (tileRect.x1 - renderArea.x1) / tc.tileWidth;
    var positionY := (tileRect.y1 - renderArea.y1) / tc.tileHeight;
    var loc := TileLocation(tileRect.x1, tileRect.y1, tileRect.GetWidth(), tc.part, canonicalViewId, tc.editMode);
    QuotientBounds(tileRect.x1 - renderArea.x1, tc.tileWidth);
    QuotientBounds(tileRect.y1 - renderArea.y1, tc.tileHeight);
    job := Queued(positionX * tc.width, positionY * tc.height, loc, WireId(lastWid, i));
  }

  ghost predicate AreQueued(jobs: seq<Queued>, tc: TileCombined, area: Area, canonicalViewId: int, lastWid: nat)
    requires Placed(tc, area) && |jobs| <= |tc.tiles|
  {
    forall i :: 0 <= i < |jobs| ==> jobs[i] == QueuedFor(tc, area, canonicalViewId, lastWid, i)
  }

  /** Queues a job per tile; wire ids count up from the last one given out. */
  method QueueJobs(tc: TileCombined, renderArea: Rectangle, tileRecs: seq<Rectangle>, canonicalViewId: int,
                   lastWid: nat)
    returns (jobs: seq<Queued>)
    requires Placed(tc, AreaOf(renderArea))
    requires |tileRecs| == |tc.tiles| && AreRects(tileRecs, tc)
    ensures |jobs| == |tc.tiles| && AreQueued(jobs, tc, AreaOf(renderArea), canonicalViewId, lastWid)
  {
    jobs := [];
    for i := 0 to |tc.tiles|
      invariant |jobs| == i && AreQueued(jobs, tc, AreaOf(renderArea), canonicalViewId, lastWid)
    {
      var job := QueueJob(tc, renderArea, tileRecs[i], canonicalViewId, lastWid, i);
      jobs := jobs + [job];
    }
  }

  /** So it is for the jobs of any two batches, whenever they are queued. */
  lemma {:induction false} QueuedLocations(jobs: seq<Queued>, tc: TileCombined, area: Area, view: int, lastWid: nat,
      i: nat, jobs': seq<Queued>, tc': TileCombined, area': Area, view': int, lastWid': nat, i': nat)
    requires Placed(tc, area) && NoOverflow(tc) && i < |jobs| == |tc.tiles| && AreQueued(jobs, tc, area, view, lastWid)
    requires Placed(tc', area') && NoOverflow(tc') && i' < |jobs'| == |tc'.tiles|
    requires AreQueued(jobs', tc', area', view', lastWid')
    ensures jobs[i].loc == jobs'[i'].loc <==>
            && tc.tiles[i].posX == tc'.tiles[i'].posX && tc.tiles[i].posY == tc'.tiles[i'].posY
            && tc.tileWidth == tc'.tileWidth && tc.part == tc'.part && view == view' && tc.editMode == tc'.editMode
  {
    SameLocationIff(tc, view, i, tc', view', i');
  }

  /** The wire ids of a batch count up if and only if the counter does not wrap around within it. */
  lemma {:induction false} WireIdsCountUpIff(lastWid: nat, n: nat)
    ensures (forall i, k :: 0 <= i < k < n ==> WireId(lastWid, i) < WireId(lastWid, k)) <==>
            WireId(lastWid, 0) + n <= 0x1_0000_0000
  {
    var first := WireId(lastWid, 0);
    if first + n <= WIRE_IDS {
      forall i, k | 0 <= i < k < n ensures WireId(lastWid, i) < WireId(lastWid, k) {
        assert WireId(lastWid, i) == first + i && WireId(lastWid, k) == first + k;
      }
    } else {
      var i := WIRE_IDS - first - 1;
      assert WireId(lastWid, i) == WIRE_IDS - 1 && WireId(lastWid, i + 1) == 0;
    }
  }

  /** Two tiles rendered around the wrap: the cache, short of one place, drops the newer one. */
  lemma {:induction false} WrapDropsNewest(first: TileLocation, second: TileLocation, tile: Tile, after: Cache)
    requires first != second
    requires Evicted(map[first := Entry(WireId(0xffff_fffe, 0), tile), second := Entry(WireId(0xffff_fffe, 1), tile)],
                     after, 1)
    ensures first in after && second !in after
  {
    var before: Cache := map[first := Entry(WireId(0xffff_fffe, 0), tile),
                             second := Entry(WireId(0xffff_fffe, 1), tile)];
    assert before.Keys == {first, second} && |before.Keys| == 2;
    assert before[first].wid > before[second].wid;
    assert after.Keys <= {first, second} && |after.Keys| == 1;
    var l :| l in after.Keys;
    assert |after.Keys - {l}| == 0;
    assert after.Keys == {l};
  }

  /** What a batch starts from: the tiles, the painted pixmap, what the PNG encoder makes of each
      preview tile, and the last wire id. */
  datatype Batch = Batch(tc: TileCombined, painted: seq<Pixel>, png: seq<Option<seq<Byte>>>, canonicalViewId: int,
                         lastWid: nat, mode: TileMode)

  /** The area is that of the tiles, and nothing overflows. */
  ghost predicate LaidOut(tc: TileCombined, area: Area)
    requires 0 < tc.tileWidth && 0 < tc.tileHeight
  {
    Covers(tc, area) && NoOverflow(tc)
  }

  /** A batch with a tile, its area, and a pixmap of the size of the area. */
  ghost predicate Paints(b: Batch, area: Area)
    ensures Paints(b, area) <==> Prepared(b, area)
  {
    && b.tc.tiles != [] && Placed(b.tc, area)
    && 0 < b.tc.width <= 256 && b.tc.width % 2 == 0 && 0 < b.tc.height <= 256
    && |b.png| == |b.tc.tiles|
    && (OpenLaid(b, area, WRAPS);
        LaidOut(b.tc, area) && |b.painted| == PixmapHeight(b.tc, area) * PixmapWidth(b.tc, area))
  }

  ghost predicate Laid(b: Batch, area: Area, wraps: nat)
    requires Placed(b.tc, area)
  {
    if wraps > 0 then Laid(b, area, wraps - 1)
    else LaidOut(b.tc, area) && |b.painted| == PixmapHeight(b.tc, area) * PixmapWidth(b.tc, area)
  }

  lemma {:induction false} OpenLaid(b: Batch, area: Area, wraps: nat)
    requires Placed(b.tc, area)
    ensures Laid(b, area, wraps) <==>
            LaidOut(b.tc, area) && |b.painted| == PixmapHeight(b.tc, area) * PixmapWidth(b.tc, area)
  {
    if wraps > 0 {
      OpenLaid(b, area, wraps - 1);
    }
  }

  /** The same, with the layout wrapped. */
  ghost predicate Prepared(b: Batch, area: Area) {
    && b.tc.tiles != [] && Placed(b.tc, area)
    && 0 < b.tc.width <= 256 && b.tc.width % 2 == 0 && 0 < b.tc.height <= 256
    && |b.png| == |b.tc.tiles| && Laid(b, area, WRAPS)
  }

  lemma {:induction false} PaintedTileFits(b: Batch, area: Area, i: nat)
    requires Prepared(b, area) && i < |b.tc.tiles|
    ensures TileFits(b.tc, area, i) && |b.painted| == PixmapHeight(b.tc, area) * PixmapWidth(b.tc, area)
  {
    OpenLaid(b, area, WRAPS);
    TilesFit(b.tc, area, i);
  }

  /** A batch of one tile of two pixels, with its pixmap. */
  lemma {:induction false} SmallestBatchPaints(b: Batch, area: Area)
    requires b.tc == TileCombined([TileDesc(0, 0, false, false)], 1, 1, 2, 1, 0, 0) && area == Area(0, 0, 1, 1)
    requires |b.painted| == 2 && |b.png| == 1
    ensures Paints(b, area)
  {
    var tc := b.tc;
    assert Xs(tc.tiles)[0] == 0 == area.left && FarEnd(Xs(tc.tiles)[0], 1) == area.right;
    assert Ys(tc.tiles)[0] == 0 == area.top && FarEnd(Ys(tc.tiles)[0], 1) == area.bottom;
    OpenLaid(b, area, WRAPS);
    assert Slots(0, 1, 1) == 1;
  }

  /** The tile as the pixmap shows it. */
  ghost function TileAt(b: Batch, area: Area, i: nat): Tile
    requires Prepared(b, area) && i < |b.tc.tiles|
  {
    PaintedTileFits(b, area, i);
    Tile(b.tc.width, SubRows(b.painted, OffsetX(b.tc, area, i), OffsetY(b.tc, area, i), b.tc.width, b.tc.height,
                             PixmapWidth(b.tc, area), PixmapHeight(b.tc, area)))
  }

  /** Each pixel of the tile as the client shows it, by its place in the pixmap. */
  lemma {:induction false} ShownPixel(b: Batch, area: Area, i: nat, y: nat, x: nat)
    returns (at: nat, image: Image)
    requires Prepared(b, area) && i < |b.tc.tiles| && y < b.tc.height && x < b.tc.width
    ensures at == (OffsetY(b.tc, area, i) + y) * PixmapWidth(b.tc, area) + OffsetX(b.tc, area, i) + x
    ensures image == Show(TileAt(b, area, i), b.mode).image
    ensures at < |b.painted| && |image| == b.tc.height && |image[y]| == 4 * b.tc.width
    ensures var p := b.painted[at];
            image[y][4 * x..4 * x + 4] ==
              if b.mode == BGRA then [p.b2, p.b1, p.b0, p.b3] else [p.b0, p.b1, p.b2, p.b3]
  {
    at := (OffsetY(b.tc, area, i) + y) * PixmapWidth(b.tc, area) + OffsetX(b.tc, area, i) + x;
    image := Show(TileAt(b, area, i), b.mode).image;
    PaintedTileFits(b, area, i);
    var tile := TileAt(b, area, i);
    SubRowsAt(b.painted, OffsetX(b.tc, area, i), OffsetY(b.tc, area, i), b.tc.width, b.tc.height,
              PixmapWidth(b.tc, area), PixmapHeight(b.tc, area), y, x);
    ImageAt(tile.rows, b.mode, y);
    SentBytesAt(tile.rows[y], b.mode, x);
  }

  /** What the job of tile i does to the cache, and its image. */
  ghost predicate Served(b: Batch, area: Area, i: nat, s: Server, s': Server, image: Option<seq<Byte>>)
    requires Prepared(b, area) && i < |b.tc.tiles|
  {
    if b.tc.tiles[i].preview then s' == s && image == b.png[i]
    else
      image.Some? &&
      Step(s, Compress(LocAt(b.tc, b.canonicalViewId, i), TileAt(b, area, i), WireId(b.lastWid, i),
                       b.tc.tiles[i].forced), s', image.value, b.mode)
  }

  ghost predicate ServedWrapped(b: Batch, area: Area, i: nat, s: Server, s': Server, image: Option<seq<Byte>>,
                                wraps: nat)
    requires Prepared(b, area) && i < |b.tc.tiles|
  {
    if wraps > 0 then ServedWrapped(b, area, i, s, s', image, wraps - 1) else Served(b, area, i, s, s', image)
  }

  lemma {:induction false} OpenServed(b: Batch, area: Area, i: nat, s: Server, s': Server, image: Option<seq<Byte>>,
                                      wraps: nat)
    requires Prepared(b, area) && i < |b.tc.tiles|
    ensures ServedWrapped(b, area, i, s, s', image, wraps) <==> Served(b, area, i, s, s', image)
  {
    if wraps > 0 {
      OpenServed(b, area, i, s, s', image, wraps - 1);
    }
  }

  /** A tile of the pixmap compressed into a buffer of its own. */
  method CompressTile(gen: Generator.DeltaGenerator, b: Batch, ghost area: Area, pixmapWidth: nat, pixmapHeight: nat,
                      i: nat, job: Queued)
    returns (image: seq<Byte>)
    requires gen.Valid() && Prepared(b, area) && i < |b.tc.tiles|
    requires pixmapWidth == PixmapWidth(b.tc, area) && pixmapHeight == PixmapHeight(b.tc, area)
    requires job == QueuedFor(b.tc, area, b.canonicalViewId, b.lastWid, i)
    modifies gen, gen.deltaEntries.Values
    ensures gen.Valid() && fresh(gen.deltaEntries.Values - old(gen.deltaEntries.Values))
    ensures Step(old(gen.View()), Compress(job.loc, TileAt(b, area, i), job.wid, b.tc.tiles[i].forced), gen.View(),
                 image, b.mode)
  {
    PaintedTileFits(b, area, i);
    var data := new ByteBuffer();
    var size;
    ghost var msg;
    size, msg := gen.CompressOrDelta(b.painted, job.offsetX, job.offsetY, b.tc.width, b.tc.height, pixmapWidth,
                                     pixmapHeight, job.loc, data, job.wid, b.tc.tiles[i].forced, b.mode);
    EmptyHead(msg);
    image := data.bytes;
  }

  /** A tile compressed, or encoded as a preview, which may fail. */
  method RunJob(gen: Generator.DeltaGenerator, b: Batch, ghost area: Area, pixmapWidth: nat, pixmapHeight: nat, i: nat,
                job: Queued)
    returns (image: Option<seq<Byte>>)
    requires gen.Valid() && Prepared(b, area) && i < |b.tc.tiles|
    requires pixmapWidth == PixmapWidth(b.tc, area) && pixmapHeight == PixmapHeight(b.tc, area)
    requires job == QueuedFor(b.tc, area, b.canonicalViewId, b.lastWid, i)
    modifies gen, gen.deltaEntries.Values
    ensures gen.Valid() && fresh(gen.deltaEntries.Values - old(gen.deltaEntries.Values))
    ensures ServedWrapped(b, area, i, old(gen.View()), gen.View(), image, WRAPS)
  {
    ghost var was := gen.View();
    if b.tc.tiles[i].preview {
      image := b.png[i];
    } else {
      var data := CompressTile(gen, b, area, pixmapWidth, pixmapHeight, i, job);
      image := Some(data);
    }
    OpenServed(b, area, i, was, gen.View(), image, WRAPS);
  }

  /** The first jobs of an order, one after the other. */
  ghost predicate AllServed(b: Batch, area: Area, order: seq<nat>, states: seq<Server>, images: seq<Option<seq<Byte>>>)
    requires Prepared(b, area) && forall k :: 0 <= k < |order| ==> order[k] < |b.tc.tiles|
  {
    && |images| <= |order| && |states| == |images| + 1
    && forall k :: 0 <= k < |images| ==> ServedWrapped(b, area, order[k], states[k], states[k + 1], images[k], WRAPS)
  }

  /** The images that were made. */
  function ImagesOf(images: seq<Option<seq<Byte>>>): seq<seq<Byte>> {
    if images == [] then []
    else
      var k := |images| - 1;
      ImagesOf(images[..k]) + match images[k] case Some(image) => [image] case None => []
  }

  /** The tiles whose jobs made an image, in the order the jobs came to their end. */
  function RenderedOf(b: Batch, order: seq<nat>, images: seq<Option<seq<Byte>>>): (r: seq<Rendered>)
    requires |images| <= |order|
    ensures |r| == |ImagesOf(images)|
    ensures forall i :: 0 <= i < |r| ==> r[i].imgSize == |ImagesOf(images)[i]|
  {
    if images == [] then []
    else
      var k := |images| - 1;
      RenderedOf(b, order, images[..k]) +
      match images[k]
      case Some(image) => [Rendered(order[k], WireId(b.lastWid, order[k]), |image|)]
      case None => []
  }

  /** How a tile, and how all tiles together, are announced. */
  datatype Headers = Headers(single: Rendered -> seq<Byte>, combined: seq<Rendered> -> seq<Byte>)

  /** A message per image: its header and the image. */
  function EachMessage(header: Rendered -> seq<Byte>, tiles: seq<Rendered>, data: seq<seq<Byte>>): (r: seq<seq<Byte>>)
    requires |tiles| == |data|
    ensures |r| == |tiles| && forall i :: 0 <= i < |r| ==> r[i] == header(tiles[i]) + data[i]
  {
    if tiles == [] then []
    else
      var k := |tiles| - 1;
      EachMessage(header, tiles[..k], data[..k]) + [header(tiles[k]) + data[k]]
  }

  /** One message for all images, or one per image. */
  function MessagesOf(headers: Headers, combined: bool, tiles: seq<Rendered>, data: seq<seq<Byte>>): seq<seq<Byte>>
    requires |tiles| == |data|
  {
    if combined then [headers.combined(tiles) + Joined(data)] else EachMessage(headers.single, tiles, data)
  }

  /** The messages of a batch. */
  function Messages(b: Batch, headers: Headers, combined: bool, order: seq<nat>,
                    images: seq<Option<seq<Byte>>>): seq<seq<Byte>>
    requires |images| <= |order|
  {
    MessagesOf(headers, combined, RenderedOf(b, order, images), ImagesOf(images))
  }

  /** What the output holds after the first jobs. */
  ghost predicate Holds(b: Batch, order: seq<nat>, images: seq<Option<seq<Byte>>>, tiles: seq<Rendered>,
                        data: seq<seq<Byte>>) {
    |images| <= |order| && tiles == RenderedOf(b, order, images) && data == ImagesOf(images)
  }

  lemma {:induction false} HoldsNext(b: Batch, order: seq<nat>, images: seq<Option<seq<Byte>>>, tiles: seq<Rendered>,
                                     data: seq<seq<Byte>>, image: Option<seq<Byte>>)
    requires Holds(b, order, images, tiles, data) && |images| < |order|
    ensures var j := order[|images|];
            Holds(b, order, images + [image],
                  if image.Some? then tiles + [Rendered(j, WireId(b.lastWid, j), |image.value|)] else tiles,
                  if image.Some? then data + [image.value] else data)
  {
    Parts(images, [image]);
    EmptyTail(tiles);
    EmptyTail(data);
  }

  lemma {:induction false} ServedNext(b: Batch, area: Area, order: seq<nat>, states: seq<Server>,
                                      images: seq<Option<seq<Byte>>>, s: Server, image: Option<seq<Byte>>)
    requires Prepared(b, area) && forall k :: 0 <= k < |order| ==> order[k] < |b.tc.tiles|
    requires AllServed(b, area, order, states, images) && |images| < |order|
    requires ServedWrapped(b, area, order[|images|], states[|images|], s, image, WRAPS)
    ensures AllServed(b, area, order, states + [s], images + [image])
  {
    forall k | 0 <= k < |images| + 1
      ensures ServedWrapped(b, area, order[k], (states + [s])[k], (states + [s])[k + 1], (images + [image])[k], WRAPS)
    {
      if k < |images| {
        assert ServedWrapped(b, area, order[k], states[k], states[k + 1], images[k], WRAPS);
      }
    }
  }

  /** A job to its end: its image goes into the output. */
  method RunNext(gen: Generator.DeltaGenerator, out: RenderOutput, b: Batch, ghost area: Area, pixmapWidth: nat,
                 pixmapHeight: nat, j: nat, job: Queued)
    returns (ghost image: Option<seq<Byte>>)
    requires gen.Valid() && out.Valid() && Prepared(b, area) && j < |b.tc.tiles|
    requires pixmapWidth == PixmapWidth(b.tc, area) && pixmapHeight == PixmapHeight(b.tc, area)
    requires job == QueuedFor(b.tc, area, b.canonicalViewId, b.lastWid, j)
    modifies gen, gen.deltaEntries.Values, out
    ensures gen.Valid() && fresh(gen.deltaEntries.Values - old(gen.deltaEntries.Values)) && out.Valid()
    ensures ServedWrapped(b, area, j, old(gen.View()), gen.View(), image, WRAPS)
    ensures out.images == if image.Some? then old(out.images) + [image.value] else old(out.images)
    ensures out.renderedTiles ==
              if image.Some? then old(out.renderedTiles) + [Rendered(j, WireId(b.lastWid, j), |image.value|)]
              else old(out.renderedTiles)
  {
    var data := RunJob(gen, b, area, pixmapWidth, pixmapHeight, j, job);
    image := data;
    if data.Some? {
      out.PushRendered(j, job.wid, data.value);
    }
  }

  ghost predicate Within(order: seq<nat>, n: nat) {
    |order| == n && forall k :: 0 <= k < |order| ==> order[k] < n
  }

  /** What is known of the cache and the output after some of the jobs. */
  ghost predicate Standing(b: Batch, area: Area, order: seq<nat>, states: seq<Server>, images: seq<Option<seq<Byte>>>,
                           now: Server, tiles: seq<Rendered>, data: seq<seq<Byte>>, wraps: nat)
    requires Prepared(b, area) && Within(order, |b.tc.tiles|)
  {
    if wraps > 0 then Standing(b, area, order, states, images, now, tiles, data, wraps - 1)
    else
      && AllServed(b, area, order, states, images) && states[|images|] == now
      && Holds(b, order, images, tiles, data)
  }

  lemma {:induction false} OpenStanding(b: Batch, area: Area, order: seq<nat>, states: seq<Server>,
      images: seq<Option<seq<Byte>>>, now: Server, tiles: seq<Rendered>, data: seq<seq<Byte>>, wraps: nat)
    requires Prepared(b, area) && Within(order, |b.tc.tiles|)
    ensures Standing(b, area, order, states, images, now, tiles, data, wraps) <==>
            && AllServed(b, area, order, states, images) && states[|images|] == now
            && Holds(b, order, images, tiles, data)
  {
    if wraps > 0 {
      OpenStanding(b, area, order, states, images, now, tiles, data, wraps - 1);
    }
  }

  lemma {:induction false} StandingNext(b: Batch, area: Area, order: seq<nat>, states: seq<Server>,
      images: seq<Option<seq<Byte>>>, was: Server, tiles: seq<Rendered>, data: seq<seq<Byte>>, now: Server,
      image: Option<seq<Byte>>)
    requires Prepared(b, area) && Within(order, |b.tc.tiles|) && |images| < |order|
    requires Standing(b, area, order, states, images, was, tiles, data, WRAPS)
    requires ServedWrapped(b, area, order[|images|], was, now, image, WRAPS)
    ensures var j := order[|images|];
            Standing(b, area, order, states + [now], images + [image], now,
                     if image.Some? then tiles + [Rendered(j, WireId(b.lastWid, j), |image.value|)] else tiles,
                     if image.Some? then data + [image.value] else data, WRAPS)
    ensures |states| == |images| + 1
  {
    OpenStanding(b, area, order, states, images, was, tiles, data, WRAPS);
    ServedNext(b, area, order, states, images, now, image);
    HoldsNext(b, order, images, tiles, data, image);
    var j := order[|images|];
    OpenStanding(b, area, order, states + [now], images + [image], now,
                 if image.Some? then tiles + [Rendered(j, WireId(b.lastWid, j), |image.value|)] else tiles,
                 if image.Some? then data + [image.value] else data, WRAPS);
  }

  /** Where the batch stands after some of its jobs. */
  ghost predicate Running(gen: Generator.DeltaGenerator, out: RenderOutput, b: Batch, area: Area, order: seq<nat>,
                          states: seq<Server>, images: seq<Option<seq<Byte>>>)
    requires Prepared(b, area) && Within(order, |b.tc.tiles|)
    reads gen, gen.deltaEntries.Values, out
  {
    && gen.Valid() && out.Valid()
    && Standing(b, area, order, states, images, gen.View(), out.renderedTiles, out.images, WRAPS)
  }

  /** One turn of the loop over the jobs. */
  method RunTurn(gen: Generator.DeltaGenerator, out: RenderOutput, b: Batch, ghost area: Area, pixmapWidth: nat,
                 pixmapHeight: nat, order: seq<nat>, k: nat, job: Queued,
                 ghost states0: seq<Server>, ghost images0: seq<Option<seq<Byte>>>)
    returns (ghost states: seq<Server>, ghost images: seq<Option<seq<Byte>>>)
    requires Prepared(b, area) && Within(order, |b.tc.tiles|) && k < |order| && |images0| == k
    requires Running(gen, out, b, area, order, states0, images0) && states0 != []
    requires pixmapWidth == PixmapWidth(b.tc, area) && pixmapHeight == PixmapHeight(b.tc, area)
    requires job == QueuedFor(b.tc, area, b.canonicalViewId, b.lastWid, order[k])
    modifies gen, gen.deltaEntries.Values, out
    ensures fresh(gen.deltaEntries.Values - old(gen.deltaEntries.Values))
    ensures Running(gen, out, b, area, order, states, images) && |images| == k + 1
    ensures states != [] && states[0] == states0[0]
  {
    ghost var was, tiles, data := gen.View(), out.renderedTiles, out.images;
    ghost var image := RunNext(gen, out, b, area, pixmapWidth, pixmapHeight, order[k], job);
    StandingNext(b, area, order, states0, images0, was, tiles, data, gen.View(), image);
    states, images := states0 + [gen.View()], images0 + [image];
  }

  /** Runs all queued jobs, in the order in which they come to their end. */
  method RunJobs(gen: Generator.DeltaGenerator, out: RenderOutput, b: Batch, ghost area: Area, pixmapWidth: nat,
                 pixmapHeight: nat, jobs: seq<Queued>, order: seq<nat>)
    returns (ghost states: seq<Server>, ghost images: seq<Option<seq<Byte>>>)
    requires gen.Valid() && out.Valid() && out.images == [] && out.renderedTiles == []
    requires Prepared(b, area) && Within(order, |b.tc.tiles|)
    requires pixmapWidth == PixmapWidth(b.tc, area) && pixmapHeight == PixmapHeight(b.tc, area)
    requires |jobs| == |b.tc.tiles| && AreQueued(jobs, b.tc, area, b.canonicalViewId, b.lastWid)
    modifies gen, gen.deltaEntries.Values, out
    ensures fresh(gen.deltaEntries.Values - old(gen.deltaEntries.Values))
    ensures Running(gen, out, b, area, order, states, images) && |images| == |order|
    ensures states != [] && states[0] == old(gen.View())
  {
    states, images := [gen.View()], [];
    OpenStanding(b, area, order, states, images, gen.View(), [], [], WRAPS);
    for k := 0 to |order|
      invariant fresh(gen.deltaEntries.Values - old(gen.deltaEntries.Values))
      invariant Running(gen, out, b, area, order, states, images) && |images| == k
      invariant states != [] && states[0] == old(gen.View())
    {
      states, images := RunTurn(gen, out, b, area, pixmapWidth, pixmapHeight, order, k, jobs[order[k]], states,
                                images);
    }
  }

  lemma {:induction false} SentAre(header: Rendered -> seq<Byte>, tiles: seq<Rendered>, data: seq<seq<Byte>>,
                                   sent: seq<seq<Byte>>)
    requires |sent| == |tiles| == |data|
    requires forall i :: 0 <= i < |sent| ==> sent[i] == header(tiles[i]) + data[i]
    ensures sent == EachMessage(header, tiles, data)
  {
  }

  /** One message for all images, or one for each. */
  method Send(out: RenderOutput, headers: Headers, combined: bool) returns (sent: seq<seq<Byte>>)
    requires out.Valid()
    ensures sent == MessagesOf(headers, combined, out.renderedTiles, out.images)
  {
    if combined {
      var message := out.SendCombined(headers.combined);
      sent := [message];
    } else {
      ghost var rest;
      sent, rest := out.SendEach(headers.single);
      SentAre(headers.single, out.renderedTiles, out.images, sent);
    }
  }

  /** The area, its size in pixels, and the queued jobs. */
  method Prepare(b: Batch, ghost area: Area) returns (pixmapWidth: nat, pixmapHeight: nat, jobs: seq<Queued>)
    requires Prepared(b, area)
    ensures pixmapWidth == PixmapWidth(b.tc, area) && pixmapHeight == PixmapHeight(b.tc, area)
    ensures |jobs| == |b.tc.tiles| && AreQueued(jobs, b.tc, area, b.canonicalViewId, b.lastWid)
  {
    var tc := b.tc;
    OpenLaid(b, area, WRAPS);
    var renderArea, tileRecs := CoverTiles(tc);
    SameArea(tc, area, AreaOf(renderArea));
    QuotientBounds(renderArea.GetWidth(), tc.tileWidth);
    QuotientBounds(renderArea.GetHeight(), tc.tileHeight);
    var tilesByX: nat := renderArea.GetWidth() / tc.tileWidth;
    var tilesByY: nat := renderArea.GetHeight() / tc.tileHeight;
    pixmapWidth := tilesByX * tc.width;
    pixmapHeight := tilesByY * tc.height;
    jobs := QueueJobs(tc, renderArea, tileRecs, b.canonicalViewId, b.lastWid);
  }

  lemma {:induction false} BatchSent(b: Batch, area: Area, order: seq<nat>, states: seq<Server>,
      images: seq<Option<seq<Byte>>>, now: Server, tiles: seq<Rendered>, data: seq<seq<Byte>>, headers: Headers,
      combined: bool, sent: seq<seq<Byte>>)
    requires Prepared(b, area) && Within(order, |b.tc.tiles|) && |images| == |order| && |tiles| == |data|
    requires Standing(b, area, order, states, images, now, tiles, data, WRAPS)
    requires sent == MessagesOf(headers, combined, tiles, data)
    ensures AllServed(b, area, order, states, images) && states[|order|] == now
    ensures sent == Messages(b, headers, combined, order, images)
  {
    OpenStanding(b, area, order, states, images, now, tiles, data, WRAPS);
  }

  /** All jobs of a batch, and their messages. */
  method RunBatch(gen: Generator.DeltaGenerator, b: Batch, ghost area: Area, order: seq<nat>, headers: Headers,
                  combined: bool)
    returns (sent: seq<seq<Byte>>, ghost states: seq<Server>, ghost images: seq<Option<seq<Byte>>>)
    requires gen.Valid() && Prepared(b, area) && IsOrder(order, |b.tc.tiles|) && |order| == |b.tc.tiles|
    modifies gen, gen.deltaEntries.Values
    ensures gen.Valid() && |images| == |order| && AllServed(b, area, order, states, images)
    ensures states[0] == old(gen.View()) && states[|order|] == gen.View()
    ensures sent == Messages(b, headers, combined, order, images)
  {
    var pixmapWidth, pixmapHeight, jobs := Prepare(b, area);
    var out := new RenderOutput();
    states, images := RunJobs(gen, out, b, area, pixmapWidth, pixmapHeight, jobs, order);
    sent := Send(out, headers, combined);
    BatchSent(b, area, order, states, images, gen.View(), out.renderedTiles, out.images, headers, combined, sent);
  }

  method RebalanceCache(gen: Generator.DeltaGenerator, ghost mode: TileMode)
    requires gen.Valid()
    modifies gen
    ensures gen.Valid() && Step(old(gen.View()), Rebalance(-1), gen.View(), [], mode)
  {
    gen.RebalanceDeltas(-1);
  }

  /** Renders a batch: every tile is cut out of the pixmap where it lies, compressed against what
      the cache holds of it, and sent, in a message of its own or in one for all; then the cache is
      rebalanced. */
  method DoRender(gen: Generator.DeltaGenerator, b: Batch, ghost area: Area, order: seq<nat>, headers: Headers,
                  combined: bool)
    returns (sent: seq<seq<Byte>>, ghost states: seq<Server>, ghost images: seq<Option<seq<Byte>>>)
    requires gen.Valid() && Paints(b, area) && IsOrder(order, |b.tc.tiles|) && |order| == |b.tc.tiles|
    modifies gen, gen.deltaEntries.Values
    ensures gen.Valid() && |images| == |order| && |states| == |order| + 1
    ensures forall k :: 0 <= k < |order| ==> Served(b, area, order[k], states[k], states[k + 1], images[k])
    ensures states[0] == old(gen.View()) && Step(states[|order|], Rebalance(-1), gen.View(), [], b.mode)
    ensures sent == Messages(b, headers, combined, order, images)
  {
    sent, states, images := RunBatch(gen, b, area, order, headers, combined);
    OpenAllServed(b, area, order, states, images);
    RebalanceCache(gen, b.mode);
  }

  lemma {:induction false} OpenAllServed(b: Batch, area: Area, order: seq<nat>, states: seq<Server>,
                                         images: seq<Option<seq<Byte>>>)
    requires Prepared(b, area) && (forall k :: 0 <= k < |order| ==> order[k] < |b.tc.tiles|) && |images| == |order|
    requires AllServed(b, area, order, states, images)
    ensures forall k :: 0 <= k < |order| ==> Served(b, area, order[k], states[k], states[k + 1], images[k])
  {
    forall k | 0 <= k < |order| ensures Served(b, area, order[k], states[k], states[k + 1], images[k]) {
      OpenServed(b, area, order[k], states[k], states[k + 1], images[k], WRAPS);
    }
  }

  lemma {:induction false} SameSpan(at: seq<Coord>, extent: Coord, lo: Coord, hi: Coord, lo': Coord, hi': Coord)
    requires 0 <= extent && Spans(at, extent, lo, hi) && Spans(at, extent, lo', hi')
    ensures lo == lo' && hi == hi'
  {
  }

  lemma {:induction false} SameArea(tc: TileCombined, a: Area, a': Area)
    requires 0 < tc.tileWidth && 0 < tc.tileHeight && Covers(tc, a) && Covers(tc, a')
    ensures a == a'
  {
    SameSpan(Xs(tc.tiles), tc.tileWidth, a.left, a.right, a'.left, a'.right);
    SameSpan(Ys(tc.tiles), tc.tileHeight, a.top, a.bottom, a'.top, a'.bottom);
  }

  // ---------- what the client makes of a batch ----------

  ghost function EventAt(b: Batch, area: Area, i: nat): Event
    requires Prepared(b, area) && i < |b.tc.tiles|
  {
    Compress(LocAt(b.tc, b.canonicalViewId, i), TileAt(b, area, i), WireId(b.lastWid, i), b.tc.tiles[i].forced)
  }

  ghost function ClientAfterJob(b: Batch, area: Area, i: nat, image: Option<seq<Byte>>, client: Client): Client
    requires Prepared(b, area) && i < |b.tc.tiles|
  {
    if b.tc.tiles[i].preview || image.None? then client else ClientStep(client, EventAt(b, area, i), image.value)
  }

  ghost function LastAfterJob(b: Batch, area: Area, i: nat, last: map<TileLocation, Tile>): map<TileLocation, Tile>
    requires Prepared(b, area) && i < |b.tc.tiles|
  {
    if b.tc.tiles[i].preview then last else last[LocAt(b.tc, b.canonicalViewId, i) := TileAt(b, area, i)]
  }

  lemma {:induction false} JobKeepsInStep(b: Batch, area: Area, i: nat, s: Server, s': Server, image: Option<seq<Byte>>,
                                          client: Client, last: map<TileLocation, Tile>)
    requires Prepared(b, area) && i < |b.tc.tiles| && ServedWrapped(b, area, i, s, s', image, WRAPS)
    requires InStep(s.cache, client, last, b.mode)
    ensures InStep(s'.cache, ClientAfterJob(b, area, i, image, client), LastAfterJob(b, area, i, last), b.mode)
  {
    OpenServed(b, area, i, s, s', image, WRAPS);
    if !b.tc.tiles[i].preview {
      StepKeepsInStep(s, EventAt(b, area, i), s', image.value, client, last, b.mode);
    }
  }

  /** The client after the images of the first n jobs; previews are shown elsewhere. */
  ghost function ClientAfterBatch(b: Batch, area: Area, order: seq<nat>, images: seq<Option<seq<Byte>>>,
                                  client: Client, n: nat)
    : Client
    requires Prepared(b, area) && IsOrder(order, |b.tc.tiles|) && n <= |images| == |order| == |b.tc.tiles|
  {
    if n == 0 then client
    else
      var before := ClientAfterBatch(b, area, order, images, client, n - 1);
      ClientAfterJob(b, area, order[n - 1], images[n - 1], before)
  }

  /** The last tile of every location after the first n jobs. */
  ghost function LastAfterBatch(b: Batch, area: Area, order: seq<nat>, last: map<TileLocation, Tile>, n: nat)
    : map<TileLocation, Tile>
    requires Prepared(b, area) && IsOrder(order, |b.tc.tiles|) && |order| == |b.tc.tiles| && n <= |order|
  {
    if n == 0 then last
    else
      LastAfterJob(b, area, order[n - 1], LastAfterBatch(b, area, order, last, n - 1))
  }

  /** A client in step with the cache is in step after every job of a batch, and after the
      rebalancing at its end. */
  lemma {:induction false} BatchKeepsInStep(b: Batch, area: Area, order: seq<nat>, states: seq<Server>,
      images: seq<Option<seq<Byte>>>, client: Client, last: map<TileLocation, Tile>, n: nat, end: Server)
    requires Paints(b, area) && IsOrder(order, |b.tc.tiles|) && n <= |images| == |order| == |b.tc.tiles|
    requires |states| == |order| + 1
    requires forall k :: 0 <= k < |order| ==> Served(b, area, order[k], states[k], states[k + 1], images[k])
    requires InStep(states[0].cache, client, last, b.mode)
    requires Step(states[n], Rebalance(-1), end, [], b.mode)
    ensures InStep(states[n].cache, ClientAfterBatch(b, area, order, images, client, n),
                   LastAfterBatch(b, area, order, last, n), b.mode)
    ensures InStep(end.cache, ClientAfterBatch(b, area, order, images, client, n),
                   LastAfterBatch(b, area, order, last, n), b.mode)
  {
    forall k | 0 <= k < |order| ensures ServedWrapped(b, area, order[k], states[k], states[k + 1], images[k], WRAPS) {
      OpenServed(b, area, order[k], states[k], states[k + 1], images[k], WRAPS);
    }
    JobsKeepInStep(b, area, order, states, images, client, last, n);
    StepKeepsInStep(states[n], Rebalance(-1), end, [], ClientAfterBatch(b, area, order, images, client, n),
      LastAfterBatch(b, area, order, last, n), b.mode);
  }

  lemma {:induction false} JobsKeepInStep(b: Batch, area: Area, order: seq<nat>, states: seq<Server>,
      images: seq<Option<seq<Byte>>>, client: Client, last: map<TileLocation, Tile>, n: nat)
    requires Prepared(b, area) && IsOrder(order, |b.tc.tiles|) && n <= |images| == |order| == |b.tc.tiles|
    requires AllServed(b, area, order, states, images)
    requires InStep(states[0].cache, client, last, b.mode)
    ensures InStep(states[n].cache, ClientAfterBatch(b, area, order, images, client, n),
                   LastAfterBatch(b, area, order, last, n), b.mode)
  {
    if n > 0 {
      JobsKeepInStep(b, area, order, states, images, client, last, n - 1);
      var i := order[n - 1];
      assert ServedWrapped(b, area, i, states[n - 1], states[n - 1 + 1], images[n - 1], WRAPS);
      JobKeepsInStep(b, area, i, states[n - 1], states[n - 1 + 1], images[n - 1],
        ClientAfterBatch(b, area, order, images, client, n - 1), LastAfterBatch(b, area, order, last, n - 1));
    }
  }
}
