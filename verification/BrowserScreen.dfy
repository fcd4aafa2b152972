/** What the browser shows, by what it knows a tile by. The server keeps its tiles by locations it
    computes; nothing is lost by that, and no two tiles are confused. */
module BrowserScreen {
  import opened Numbers
  import opened Pixels
  import opened Seqs
  import opened Tiles
  import opened TileGeometry
  import opened ClientDelta
  import opened ClientKeyframe
  import opened DeltaMaker
  import opened CacheProtocol
  import opened RenderTiles
  import opened ConcurrentRender
  import Concurrent = ConcurrentCache

  /** Which tile: its position and width, the part, the view and the mode. */
  datatype Place = Place(posX: int, posY: int, tileWidth: int, part: int, canonicalViewId: int, editMode: int)

  type Screen = map<Place, Shown>

  function PlaceAt(b: Batch, i: nat): Place
    requires i < |b.tc.tiles|
  {
    Place(b.tc.tiles[i].posX, b.tc.tiles[i].posY, b.tc.tileWidth, b.tc.part, b.canonicalViewId, b.tc.editMode)
  }

  // ---------- places and locations ----------

  function LocationOf(p: Place): TileLocation {
    TileLocation(p.posX, p.posY, p.tileWidth, p.part, p.canonicalViewId, p.editMode)
  }

  /** The tile is cached under its place. */
  lemma {:induction false} LocatedAt(b: Batch, area: Area, i: nat)
    requires Prepared(b, area) && i < |b.tc.tiles|
    ensures AllJobs(b, area)[i].loc == LocationOf(PlaceAt(b, i))
  {
    OpenLaid(b, area, WRAPS);
    JobsOfAt(b, area, |b.tc.tiles|, i);
  }

  /** The same tiles, by location. */
  function ByLocation(screen: Screen): Client {
    Located(screen, WRAPS)
  }

  function Located(screen: Screen, wraps: nat): Client {
    if wraps > 0 then Located(screen, wraps - 1) else Moved(screen)
  }

  function Moved(screen: Screen): Client {
    map p | p in screen :: LocationOf(p) := screen[p]
  }

  lemma {:induction false} OpenLocated(screen: Screen, wraps: nat)
    ensures Located(screen, wraps) == Moved(screen)
  {
    if wraps > 0 {
      OpenLocated(screen, wraps - 1);
    }
  }

  lemma {:induction false} ByLocationHas(screen: Screen, p: Place)
    ensures LocationOf(p) in ByLocation(screen) <==> p in screen
    ensures p in screen ==> ByLocation(screen)[LocationOf(p)] == screen[p]
  {
    OpenLocated(screen, WRAPS);
    if LocationOf(p) in ByLocation(screen) {
      var q :| q in screen && LocationOf(q) == LocationOf(p);
      assert q == p;
    }
  }

  lemma {:induction false} EmptyByLocation()
    ensures ByLocation(map[]) == map[]
  {
    OpenLocated(map[], WRAPS);
    assert Moved(map[]) == map[];
  }

  /** Different screens are different by location too. */
  lemma {:induction false} ByLocationTells(a: Screen, b: Screen)
    requires ByLocation(a) == ByLocation(b)
    ensures a == b
  {
    forall p: Place ensures (p in a <==> p in b) && (p in a ==> a[p] == b[p]) {
      ByLocationHas(a, p);
      ByLocationHas(b, p);
    }
  }

  lemma {:induction false} ByLocationUpdate(screen: Screen, p: Place, shown: Shown)
    ensures ByLocation(screen[p := shown]) == ByLocation(screen)[LocationOf(p) := shown]
  {
    var after, expected := ByLocation(screen[p := shown]), ByLocation(screen)[LocationOf(p) := shown];
    forall l: TileLocation ensures (l in after <==> l in expected) && (l in after ==> after[l] == expected[l]) {
      var q := Place(l.left, l.top, l.size, l.part, l.canonicalViewId, l.viewMode);
      assert LocationOf(q) == l;
      ByLocationHas(screen, q);
      ByLocationHas(screen[p := shown], q);
    }
  }

  lemma {:induction false} ApplyByLocation(screen: Screen, p: Place, width: nat, height: nat, msg: seq<Byte>)
    ensures ByLocation(ClientApply(screen, p, width, height, msg))
         == ClientApply(ByLocation(screen), LocationOf(p), width, height, msg)
  {
    ByLocationHas(screen, p);
    if msg != [] {
      if msg[0] == KEYFRAME {
        ByLocationUpdate(screen, p, Shown(width, UnrleImage(msg[1..], width, height)));
      } else if msg[0] == DELTA && p in screen {
        ByLocationUpdate(screen, p, screen[p].(image := RunStream(msg[1..], screen[p].image)));
      }
    }
  }

  // ---------- one batch ----------

  /** The screen after the images of the first n tiles; previews are shown elsewhere. */
  function ReadScreen(b: Batch, jobs: seq<Concurrent.Job>, screen: Screen, headers: Headers, combined: bool,
                      tiles: seq<Rendered>, sent: seq<seq<Byte>>, n: nat): Screen
    requires Announced(headers, combined, tiles, sent) && n <= |tiles| && |jobs| == |b.tc.tiles|
    requires forall i :: 0 <= i < |tiles| ==> tiles[i].tile < |jobs|
  {
    if n == 0 then screen
    else
      var before := ReadScreen(b, jobs, screen, headers, combined, tiles, sent, n - 1);
      var j := tiles[n - 1].tile;
      if b.tc.tiles[j].preview then before
      else
        ClientApply(before, PlaceAt(b, j), b.tc.width, b.tc.height, CutOut(headers, combined, tiles, sent, n - 1))
  }

  /** The screen that is just shown the tiles of the first n jobs of an order. */
  ghost function ShowScreen(b: Batch, area: Area, screen: Screen, order: seq<nat>, n: nat): Screen
    requires Prepared(b, area) && n <= |order| && forall i :: 0 <= i < |order| ==> order[i] < |b.tc.tiles|
  {
    if n == 0 then screen
    else
      ShowScreen(b, area, screen, order, n - 1)[PlaceAt(b, order[n - 1]) := Show(TileAt(b, area, order[n - 1]), b.mode)]
  }

  lemma {:induction false} JobShape(b: Batch, area: Area, i: nat)
    requires Prepared(b, area) && i < |b.tc.tiles|
    ensures var tile := AllJobs(b, area)[i].tile;
            tile == TileAt(b, area, i) && tile.width == b.tc.width && |tile.rows| == b.tc.height
  {
    JobsOfAt(b, area, |b.tc.tiles|, i);
    PaintedTileFits(b, area, i);
  }

  lemma {:induction false} ReadByLocation(b: Batch, area: Area, screen: Screen, headers: Headers, combined: bool,
                                          tiles: seq<Rendered>, sent: seq<seq<Byte>>, n: nat)
    requires Prepared(b, area) && Announced(headers, combined, tiles, sent) && n <= |tiles|
    requires forall i :: 0 <= i < |tiles| ==> tiles[i].tile < |b.tc.tiles|
    ensures ByLocation(ReadScreen(b, AllJobs(b, area), screen, headers, combined, tiles, sent, n))
         == Read(b, AllJobs(b, area), ByLocation(screen), headers, combined, tiles, sent, n)
  {
    if n > 0 {
      ReadByLocation(b, area, screen, headers, combined, tiles, sent, n - 1);
      var j := tiles[n - 1].tile;
      LocatedAt(b, area, j);
      JobShape(b, area, j);
      if !b.tc.tiles[j].preview {
        ApplyByLocation(ReadScreen(b, AllJobs(b, area), screen, headers, combined, tiles, sent, n - 1), PlaceAt(b, j),
                        b.tc.width, b.tc.height, CutOut(headers, combined, tiles, sent, n - 1));
      }
    }
  }

  lemma {:induction false} OneMore(before: Screen, p: Place, shown: Shown, client: Client, loc: TileLocation)
    requires ByLocation(before) == client && LocationOf(p) == loc
    ensures ByLocation(before[p := shown]) == client[loc := shown]
  {
    ByLocationUpdate(before, p, shown);
  }

  lemma {:induction false} ShowByLocation(b: Batch, area: Area, screen: Screen, order: seq<nat>, n: nat)
    requires Prepared(b, area) && n <= |order| && forall i :: 0 <= i < |order| ==> order[i] < |b.tc.tiles|
    ensures ByLocation(ShowScreen(b, area, screen, order, n))
         == Concurrent.Rendered(ByLocation(screen), AllJobs(b, area), order, n, b.mode)
  {
    if n > 0 {
      ShowByLocation(b, area, screen, order, n - 1);
      LocatedAt(b, area, order[n - 1]);
      JobShape(b, area, order[n - 1]);
      OneMore(ShowScreen(b, area, screen, order, n - 1), PlaceAt(b, order[n - 1]),
              Show(TileAt(b, area, order[n - 1]), b.mode),
              Concurrent.Rendered(ByLocation(screen), AllJobs(b, area), order, n - 1, b.mode),
              AllJobs(b, area)[order[n - 1]].loc);
    }
  }

  // ---------- batch after batch ----------

  ghost function ReadBatch(r: Render, screen: Screen, mode: TileMode): Screen
    requires IsWhole(r, mode)
  {
    OpenWhole(r, mode, WRAPS);
    RenderReadable(r.b, r.area, r.states, r.moves, r.headers, r.combined);
    var s := r.states[|r.moves|];
    ReadScreen(r.b, AllJobs(r.b, r.area), screen, r.headers, r.combined, s.tiles,
               MessagesOf(r.headers, r.combined, s.tiles, s.images), |s.tiles|)
  }

  ghost function ShowBatch(r: Render, screen: Screen, mode: TileMode): Screen
    requires IsWhole(r, mode)
  {
    OpenWhole(r, mode, WRAPS);
    RenderReadable(r.b, r.area, r.states, r.moves, r.headers, r.combined);
    var order := EndOrder(r.b, r.states[|r.moves|]);
    ShowScreen(r.b, r.area, screen, order, |order|)
  }

  lemma {:induction false} BatchReadByLocation(r: Render, screen: Screen, mode: TileMode)
    requires IsWhole(r, mode)
    ensures ByLocation(ReadBatch(r, screen, mode)) == ReadOne(r, ByLocation(screen), mode)
  {
    OpenWhole(r, mode, WRAPS);
    RenderReadable(r.b, r.area, r.states, r.moves, r.headers, r.combined);
    var s := r.states[|r.moves|];
    ReadByLocation(r.b, r.area, screen, r.headers, r.combined, s.tiles,
                   MessagesOf(r.headers, r.combined, s.tiles, s.images), |s.tiles|);
  }

  lemma {:induction false} BatchShownByLocation(r: Render, screen: Screen, mode: TileMode)
    requires IsWhole(r, mode)
    ensures ByLocation(ShowBatch(r, screen, mode)) == ShownOne(r, ByLocation(screen), mode)
  {
    OpenWhole(r, mode, WRAPS);
    RenderReadable(r.b, r.area, r.states, r.moves, r.headers, r.combined);
    var order := EndOrder(r.b, r.states[|r.moves|]);
    ShowByLocation(r.b, r.area, screen, order, |order|);
  }

  /** The screen after the messages of the first n batches. */
  ghost function ReadBatches(rs: seq<Render>, n: nat, mode: TileMode): Screen
    requires n <= |rs| && forall k :: 0 <= k < |rs| ==> IsWhole(rs[k], mode)
  {
    if n == 0 then map[] else ReadBatch(rs[n - 1], ReadBatches(rs, n - 1, mode), mode)
  }

  /** The screen that is just shown the tiles of the first n batches. */
  ghost function ShowBatches(rs: seq<Render>, n: nat, mode: TileMode): Screen
    requires n <= |rs| && forall k :: 0 <= k < |rs| ==> IsWhole(rs[k], mode)
  {
    if n == 0 then map[] else ShowBatch(rs[n - 1], ShowBatches(rs, n - 1, mode), mode)
  }

  lemma {:induction false} BatchesByLocation(rs: seq<Render>, n: nat, mode: TileMode)
    requires n <= |rs| && forall k :: 0 <= k < |rs| ==> IsWhole(rs[k], mode)
    ensures ByLocation(ReadBatches(rs, n, mode)) == ReadAll(rs, n, mode)
  {
    if n > 0 {
      BatchesByLocation(rs, n - 1, mode);
      BatchReadByLocation(rs[n - 1], ReadBatches(rs, n - 1, mode), mode);
    } else {
      EmptyByLocation();
    }
  }

  lemma {:induction false} ShownByLocation(rs: seq<Render>, n: nat, mode: TileMode)
    requires n <= |rs| && forall k :: 0 <= k < |rs| ==> IsWhole(rs[k], mode)
    ensures ByLocation(ShowBatches(rs, n, mode)) == ShownAll(rs, n, mode)
  {
    if n > 0 {
      ShownByLocation(rs, n - 1, mode);
      BatchShownByLocation(rs[n - 1], ShowBatches(rs, n - 1, mode), mode);
    } else {
      EmptyByLocation();
    }
  }

  /** Over every sequence of calls, whatever the interleaving in each of them and whatever is evicted
      in between: a browser that reads all messages shows exactly the last tile of every place, and is
      in step with the cache. */
  lemma {:induction false} RendersStayInStep(rs: seq<Render>, n: nat, mode: TileMode)
    requires AreRenders(rs, mode) && n <= |rs|
    ensures ReadBatches(rs, n, mode) == ShowBatches(rs, n, mode)
    ensures n > 0 ==> ShowsCache(ByLocation(ReadBatches(rs, n, mode)), rs[n - 1].states[|rs[n - 1].moves|].cache, mode)
  {
    RendersByLocation(rs, n, mode);
    BatchesByLocation(rs, n, mode);
    ShownByLocation(rs, n, mode);
    ByLocationTells(ReadBatches(rs, n, mode), ShowBatches(rs, n, mode));
  }
}
