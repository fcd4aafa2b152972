/** `DeltaGenerator`: the cache of last tiles and its calls, proved against the protocol
    (kit/Delta.hpp). */
module DeltaGenerator {
  import opened Pixels
  import opened Seqs
  import opened RowCodec
  import opened Buffers
  import opened DeltaFormat
  import opened BitmapRows
  import opened Tiles
  import opened DeltaMaker
  import opened ClientKeyframe
  import opened CacheProtocol

  // ---------- sorting by age ----------

  predicate SortedByWid(s: seq<TileLocation>, wids: map<TileLocation, nat>) {
    (forall i :: 0 <= i < |s| ==> s[i] in wids) &&
    forall i, j :: 0 <= i < j < |s| ==> wids[s[i]] <= wids[s[j]]
  }

  predicate Distinct(s: seq<TileLocation>) {
    forall i, j :: 0 <= i < j < |s| ==> s[i] != s[j]
  }

  lemma {:induction false} InsertedInPlace(s: seq<TileLocation>, i: nat, l: TileLocation, wids: map<TileLocation, nat>,
      r: seq<TileLocation>)
    requires SortedByWid(s, wids) && Distinct(s) && l in wids && l !in s && i <= |s|
    requires forall j :: 0 <= j < i ==> wids[s[j]] <= wids[l]
    requires i < |s| ==> wids[l] < wids[s[i]]
    requires r == s[..i] + [l] + s[i..]
    ensures SortedByWid(r, wids) && Distinct(r)
  {
    assert forall k :: 0 <= k < |r| ==> r[k] == if k < i then s[k] else if k == i then l else s[k - 1];
  }

  lemma {:induction false} InsertedElements(s: seq<TileLocation>, i: nat, l: TileLocation, r: seq<TileLocation>)
    requires i <= |s| && r == s[..i] + [l] + s[i..]
    ensures forall k :: k in r <==> k in s || k == l
  {
    assert forall k :: 0 <= k < |r| ==> r[k] == if k < i then s[k] else if k == i then l else s[k - 1];
    forall k ensures k in r <==> k in s || k == l {
      if k in s {
        var j :| 0 <= j < |s| && s[j] == k;
        assert r[if j < i then j else j + 1] == k;
      }
      if k == l {
        assert r[i] == k;
      }
    }
  }

  /** Puts a location in its place among sorted ones. */
  method InsertByWid(s: seq<TileLocation>, l: TileLocation, wids: map<TileLocation, nat>) returns (r: seq<TileLocation>)
    requires SortedByWid(s, wids) && Distinct(s) && l in wids && l !in s
    ensures SortedByWid(r, wids) && Distinct(r) && |r| == |s| + 1
    ensures forall k :: k in r <==> k in s || k == l
  {
    var i: nat := 0;
    while i < |s| && wids[s[i]] <= wids[l]
      invariant i <= |s| && forall j :: 0 <= j < i ==> wids[s[j]] <= wids[l]
    {
      i := i + 1;
    }
    r := s[..i] + [l] + s[i..];
    InsertedInPlace(s, i, l, wids, r);
    InsertedElements(s, i, l, r);
  }

  /** The locations of all entries, oldest first; ties in any order. */
  method SortByWid(wids: map<TileLocation, nat>) returns (s: seq<TileLocation>)
    ensures SortedByWid(s, wids) && Distinct(s) && |s| == |wids|
    ensures forall k :: k in s <==> k in wids
  {
    s := [];
    var rest := wids.Keys;
    while rest != {}
      invariant rest <= wids.Keys && SortedByWid(s, wids) && Distinct(s) && |s| + |rest| == |wids|
      invariant forall k :: k in s <==> k in wids && k !in rest
      decreases |rest|
    {
      var l :| l in rest;
      s := InsertByWid(s, l, wids);
      rest := rest - {l};
    }
  }

  function Elems(s: seq<TileLocation>): set<TileLocation> {
    set l | l in s
  }

  lemma {:induction false} ElemsSnoc(s: seq<TileLocation>, l: TileLocation)
    ensures Elems(s + [l]) == Elems(s) + {l}
  {
  }

  lemma {:induction false} ElemsCount(s: seq<TileLocation>)
    requires Distinct(s)
    ensures |Elems(s)| == |s|
  {
    if s != [] {
      var n := |s| - 1;
      ElemsCount(s[..n]);
      FrontLast(s);
      ElemsSnoc(s[..n], s[n]);
      assert s[n] !in s[..n];
    }
  }

  lemma {:induction false} MinusCount<V>(m: map<TileLocation, V>, gone: set<TileLocation>)
    requires gone <= m.Keys
    ensures |m - gone| == |m| - |gone|
  {
    assert (m - gone).Keys == m.Keys - gone;
  }

  lemma {:induction false} MinusOne<V>(m: map<TileLocation, V>, gone: set<TileLocation>, l: TileLocation)
    ensures m - gone - {l} == m - (gone + {l})
  {
  }

  function Wids(cache: Cache): map<TileLocation, nat> {
    map l | l in cache :: cache[l].wid
  }

  /** Erasing the front of the sorted locations drops the oldest entries. */
  lemma {:induction false} DroppedAreOldest(before: Cache, order: seq<TileLocation>, n: nat)
    requires SortedByWid(order, Wids(before)) && Distinct(order) && n <= |order|
    requires forall k :: k in order <==> k in Wids(before)
    ensures Evicted(before, before - Elems(order[..n]), n)
  {
    var gone := Elems(order[..n]);
    assert Wids(before).Keys == before.Keys;
    ElemsCount(order[..n]);
    MinusCount(before, gone);
    forall k, d | k in before && k !in gone && d in gone ensures before[d].wid <= before[k].wid {
      OlderThanKept(before, order, n, k, d);
    }
  }

  lemma {:induction false} OlderThanKept(before: Cache, order: seq<TileLocation>, n: nat, k: TileLocation,
                                         d: TileLocation)
    requires SortedByWid(order, Wids(before)) && n <= |order| && forall l :: l in order <==> l in before
    requires d in order[..n] && k in order && k !in order[..n]
    ensures d in before && k in before && before[d].wid <= before[k].wid
  {
    var i :| 0 <= i < n && order[i] == d;
    var j :| 0 <= j < |order| && order[j] == k;
    assert n <= j;
  }

  /** The sorted locations; erasing the first n of them drops the oldest entries. */
  method OldestFirst(wids: map<TileLocation, nat>, n: nat, ghost before: Cache) returns (entries: seq<TileLocation>)
    requires wids == Wids(before) && n <= |wids|
    ensures n <= |entries| && EvictedWrapped(before, before - Elems(entries[..n]), n, WRAPS)
  {
    entries := SortByWid(wids);
    DroppedAreOldest(before, entries, n);
    OpenEvicted(before, before - Elems(entries[..n]), n, WRAPS);
  }

  ghost predicate EvictedWrapped(before: Cache, after: Cache, n: nat, wraps: nat) {
    if wraps > 0 then EvictedWrapped(before, after, n, wraps - 1) else Evicted(before, after, n)
  }

  lemma {:induction false} OpenEvicted(before: Cache, after: Cache, n: nat, wraps: nat)
    ensures EvictedWrapped(before, after, n, wraps) <==> Evicted(before, after, n)
  {
    if wraps > 0 {
      OpenEvicted(before, after, n, wraps - 1);
    }
  }

  /** What `createDelta` returns from at once: an odd width, or, with asserts off, a tile too large. */
  predicate Refused(width: nat, height: nat) {
    width % 2 != 0 || width > 256 || height > 256
  }

  /** In numbers: any odd width, and everything over 256. */
  lemma {:induction false} RefusedMeans(width: nat, height: nat)
    ensures Refused(width, height) <==> !exists half: nat :: 2 * half == width && width <= 256 && height <= 256
  {
    if width % 2 == 0 {
      assert 2 * (width / 2) == width;
    }
  }

  // ---------- the generator ----------

  class DeltaGenerator {
    /** The set of entries, hashed and compared by location. */
    var deltaEntries: map<TileLocation, DeltaData>
    var maxEntries: nat
    const simd: SimdTables?

    ghost predicate Valid()
      reads this, deltaEntries.Values
    {
      (simd != null ==> simd.Valid()) &&
      forall l :: l in deltaEntries ==>
        deltaEntries[l].loc == l && deltaEntries[l].Valid() && !deltaEntries[l].inUse
    }

    /** The cache as a value. */
    ghost function Cached(): Cache
      reads `deltaEntries, deltaEntries.Values
    {
      map l | l in deltaEntries :: Entry(deltaEntries[l].wid, deltaEntries[l].tile)
    }

    ghost function View(): Server
      reads this, deltaEntries.Values
    {
      Server(Cached(), maxEntries)
    }

    constructor (simd: SimdTables?)
      requires simd != null ==> simd.Valid()
      ensures Valid() && View() == Server(map[], 0)
    {
      this.simd := simd;
      deltaEntries := map[];
      maxEntries := 0;
    }

    /** Drops entries, oldest first, once there are too many. */
    method RebalanceDeltasT(dropAll: bool)
      requires Valid()
      modifies `deltaEntries
      ensures Valid() && deltaEntries.Values <= old(deltaEntries.Values)
      ensures Rebalanced(old(Cached()), maxEntries, dropAll, Cached())
    {
      CachedKeys();
      if |deltaEntries| > maxEntries || dropAll {
        var toRemove := |deltaEntries|;
        if !dropAll {
          toRemove := toRemove - maxEntries * 3 / 4;
        }
        EraseOldest(toRemove);
      }
    }

    /** The loop that erases the front of the sorted entries. */
    method EraseFront(entries: seq<TileLocation>, toRemove: nat)
      requires toRemove <= |entries|
      modifies `deltaEntries
      ensures deltaEntries == old(deltaEntries) - Elems(entries[..toRemove])
    {
      var i: nat := 0;
      assert deltaEntries == old(deltaEntries) - Elems(entries[..0]);
      while i < toRemove
        invariant i <= toRemove && deltaEntries == old(deltaEntries) - Elems(entries[..i])
      {
        TakeSnoc(entries, i);
        ElemsSnoc(entries[..i], entries[i]);
        MinusOne(old(deltaEntries), Elems(entries[..i]), entries[i]);
        deltaEntries := deltaEntries - {entries[i]};
        i := i + 1;
      }
    }

    method EraseOldest(toRemove: nat)
      requires Valid() && toRemove <= |deltaEntries|
      modifies `deltaEntries
      ensures Valid() && deltaEntries.Values <= old(deltaEntries.Values)
      ensures Evicted(old(Cached()), Cached(), toRemove)
    {
      ghost var cache := Cached();
      EraseSorted(toRemove);
      OpenEvicted(cache, Cached(), toRemove, WRAPS);
    }

    method EraseSorted(toRemove: nat)
      requires Valid() && toRemove <= |deltaEntries|
      modifies `deltaEntries
      ensures Valid() && deltaEntries.Values <= old(deltaEntries.Values)
      ensures EvictedWrapped(old(Cached()), Cached(), toRemove, WRAPS)
    {
      ghost var cache := Cached();
      var wids := CurrentWids();
      CachedKeys();
      var entries := OldestFirst(wids, toRemove, cache);
      EraseFront(entries, toRemove);
      CachedMinus(old(deltaEntries), Elems(entries[..toRemove]), cache);
    }

    method CurrentWids() returns (wids: map<TileLocation, nat>)
      ensures wids == Wids(Cached())
    {
      wids := map l | l in deltaEntries :: deltaEntries[l].wid;
    }

    lemma {:induction false} CachedKeys()
      ensures Cached().Keys == deltaEntries.Keys == Wids(Cached()).Keys
      ensures |Cached()| == |deltaEntries| == |Wids(Cached())|
    {
      assert Cached().Keys == deltaEntries.Keys == Wids(Cached()).Keys;
    }

    lemma {:induction false} CachedMinus(was: map<TileLocation, DeltaData>, gone: set<TileLocation>, cache: Cache)
      requires deltaEntries == was - gone && cache.Keys == was.Keys
      requires forall l :: l in was ==> cache[l] == Entry(was[l].wid, was[l].tile)
      ensures Cached() == cache - gone
    {
    }

    // ---------- sizing ----------

    method Rebalance()
      requires Valid()
      modifies `deltaEntries
      ensures Valid() && deltaEntries.Values <= old(deltaEntries.Values)
      ensures Rebalanced(old(Cached()), maxEntries, false, Cached())
      ensures |Cached()| <= maxEntries && (Cached() == old(Cached()) <==> |old(Cached())| <= maxEntries)
    {
      ghost var before := Cached();
      RebalanceDeltasT(false);
      ghost var after := Cached();
      RebalancedSize(before, maxEntries, after);
    }

    /** `rebalanceDeltas`: takes over a positive limit. */
    method RebalanceDeltas(limit: int)
      requires Valid()
      modifies `deltaEntries, `maxEntries
      ensures Valid() && deltaEntries.Values <= old(deltaEntries.Values)
      ensures maxEntries == if limit > 0 then limit else old(maxEntries)
      ensures Rebalanced(old(Cached()), maxEntries, false, Cached())
      ensures |Cached()| <= maxEntries && (Cached() == old(Cached()) <==> |old(Cached())| <= maxEntries)
    {
      ghost var before := Cached();
      if limit > 0 {
        maxEntries := limit;
      }
      assert Cached() == before;
      Rebalance();
    }

    /** 96 entries for each session, with at least one; a number of sessions for which that is no
        `ssize_t` wraps around. */
    method SetSessionCount(count: nat)
      requires Valid()
      modifies `deltaEntries, `maxEntries
      ensures Valid() && deltaEntries.Values <= old(deltaEntries.Values)
      ensures maxEntries == NewMax(SessionLimit(count), old(maxEntries))
      ensures Rebalanced(old(Cached()), maxEntries, false, Cached())
      ensures count <= 0x7fff_ffff_ffff_ffff / 96 ==>
                && maxEntries == (if count == 0 then 96 else 96 * count) && |Cached()| <= maxEntries
                && (Cached() == old(Cached()) <==> |old(Cached())| <= if count == 0 then 96 else 96 * count)
    {
      if count <= 0x7fff_ffff_ffff_ffff / 96 {
        SessionLimitIs(count);
      }
      RebalanceDeltas(SessionLimit(count));
    }

    method DropCache()
      requires Valid()
      modifies `deltaEntries
      ensures Valid() && deltaEntries == map[]
      ensures Rebalanced(old(Cached()), maxEntries, true, Cached())
    {
      ghost var cache := Cached();
      RebalanceDeltasT(true);
      CachedKeys();
      EmptyMap(deltaEntries);
    }

    lemma {:induction false} EmptyMap(m: map<TileLocation, DeltaData>)
      requires |m| == 0
      ensures m == map[]
    {
      assert m.Keys == {};
    }

    // ---------- rendering ----------

    /** The cached tile is brought up to date in place; unless a keyframe is forced, a delta
        against what it held is appended. */
    method UpdateEntry(cacheEntry: DeltaData, update: DeltaData, output: ByteBuffer, forceKeyframe: bool,
                       mode: TileMode)
      returns (delta: bool, ghost ops: seq<Op>)
      requires cacheEntry.Valid() && update.Valid() && cacheEntry != update && cacheEntry.loc == update.loc
      requires !cacheEntry.inUse && update.width <= 256 && update.height <= 256
      modifies cacheEntry, update, output
      ensures cacheEntry.Valid() && !cacheEntry.inUse
      ensures cacheEntry.tile == old(update.tile) && cacheEntry.wid == old(update.wid)
      ensures delta <==> !forceKeyframe && SameShape(old(cacheEntry.tile), old(update.tile))
      ensures !delta ==> output.bytes == old(output.bytes)
      ensures delta ==> IsDelta(ops, old(cacheEntry.tile.rows), old(update.tile.rows), mode)
      ensures delta ==> output.bytes == old(output.bytes) + ([DELTA] + DeltaBytes(ops))
    {
      cacheEntry.Use();
      delta, ops := false, [];
      if !forceKeyframe {
        delta, ops := MakeDelta(cacheEntry, update, output, mode);
      }
      cacheEntry.ReplaceAndFree(update);
      cacheEntry.Unuse();
    }

    /** `createDelta`: stores the tile; appends a delta if one is possible. */
    method CreateDelta(pixmap: seq<Pixel>, startX: nat, startY: nat, width: nat, height: nat, bufferWidth: nat,
                       bufferHeight: nat, loc: TileLocation, output: ByteBuffer, wid: nat, forceKeyframe: bool,
                       mode: TileMode)
      returns (delta: bool, rleData: DeltaData?, ghost msg: seq<Byte>)
      requires Valid()
      requires !Refused(width, height) ==> Fits2D(|pixmap|, startX, startY, width, height, bufferWidth, bufferHeight)
      modifies this, deltaEntries.Values, output
      ensures Valid() && maxEntries == old(maxEntries)
      ensures fresh(deltaEntries.Values - old(deltaEntries.Values))
      ensures Refused(width, height) ==>
                !delta && rleData == null && Cached() == old(Cached()) && output.bytes == old(output.bytes)
      ensures !Refused(width, height) ==>
                rleData != null && rleData.Valid() &&
                rleData.tile ==
                  Tile(width, SubRows(pixmap, startX, startY, width, height, bufferWidth, bufferHeight)) &&
                Cached() == old(Cached())[loc := Entry(wid, rleData.tile)]
      ensures !Refused(width, height) ==>
                (delta <==> loc in old(Cached()) && !forceKeyframe && SameShape(old(Cached())[loc].tile, rleData.tile))
      ensures !delta ==> output.bytes == old(output.bytes)
      ensures delta ==> output.bytes == old(output.bytes) + msg
      ensures delta ==> IsMessage(Held(old(Cached()), loc), rleData.tile, forceKeyframe, mode, msg)
    {
      delta, rleData, msg := false, null, [];
      if width % 2 != 0 {
        return;
      }
      if width > 256 || height > 256 {
        return;
      }
      var update := new DeltaData(wid, pixmap, startX, startY, width, height, loc, bufferWidth, bufferHeight, simd);
      delta, rleData, msg := StoreTile(update, output, forceKeyframe, mode);
    }

    /** The tile takes its place in the cache. */
    method StoreTile(update: DeltaData, output: ByteBuffer, forceKeyframe: bool, mode: TileMode)
      returns (delta: bool, rleData: DeltaData, ghost msg: seq<Byte>)
      requires Valid() && update.Valid() && !update.inUse && update !in deltaEntries.Values
      requires update.width <= 256 && update.height <= 256
      modifies `deltaEntries, deltaEntries.Values, update, output
      ensures Valid() && deltaEntries.Values <= old(deltaEntries.Values) + {update}
      ensures rleData.Valid() && rleData.tile == old(update.tile)
      ensures Cached() == old(Cached())[update.loc := Entry(old(update.wid), old(update.tile))]
      ensures delta <==> update.loc in old(Cached()) && !forceKeyframe &&
                         SameShape(old(Cached())[update.loc].tile, old(update.tile))
      ensures !delta ==> output.bytes == old(output.bytes)
      ensures delta ==> output.bytes == old(output.bytes) + msg
      ensures delta ==> IsMessage(Held(old(Cached()), update.loc), old(update.tile), forceKeyframe, mode, msg)
    {
      CachedKeys();
      delta, rleData, msg := false, update, [];
      if update.loc !in deltaEntries {
        InsertEntry(update);
      } else {
        delta, rleData, msg := RefreshEntry(update, output, forceKeyframe, mode);
      }
    }

    /** A tile whose location is not in the cache yet. */
    method InsertEntry(update: DeltaData)
      requires Valid() && update.Valid() && !update.inUse && update.loc !in deltaEntries
      modifies `deltaEntries
      ensures Valid() && deltaEntries == old(deltaEntries)[update.loc := update]
      ensures Cached() == old(Cached())[update.loc := Entry(update.wid, update.tile)]
    {
      ghost var cache := Cached();
      deltaEntries := deltaEntries[update.loc := update];
      assert Cached() == cache[update.loc := Entry(update.wid, update.tile)];
    }

    /** A tile whose location is in the cache. */
    method RefreshEntry(update: DeltaData, output: ByteBuffer, forceKeyframe: bool, mode: TileMode)
      returns (delta: bool, cacheEntry: DeltaData, ghost msg: seq<Byte>)
      requires Valid() && update.Valid() && update.loc in deltaEntries && update !in deltaEntries.Values
      requires update.width <= 256 && update.height <= 256
      modifies deltaEntries.Values, update, output
      ensures Valid() && cacheEntry in deltaEntries.Values && cacheEntry.Valid() && cacheEntry.tile == old(update.tile)
      ensures Cached() == old(Cached())[update.loc := Entry(old(update.wid), old(update.tile))]
      ensures delta <==> !forceKeyframe && SameShape(old(Cached())[update.loc].tile, old(update.tile))
      ensures !delta ==> output.bytes == old(output.bytes)
      ensures delta ==> output.bytes == old(output.bytes) + msg
      ensures delta ==> IsMessage(Held(old(Cached()), update.loc), old(update.tile), forceKeyframe, mode, msg)
    {
      ghost var cache, tile, wid := Cached(), update.tile, update.wid;
      cacheEntry := deltaEntries[update.loc];
      ghost var ops;
      delta, ops := UpdateEntry(cacheEntry, update, output, forceKeyframe, mode);
      msg := [DELTA] + DeltaBytes(if delta then ops else []);
      assert Cached() == cache[update.loc := Entry(wid, tile)];
    }

    /** The packed rows of a tile, one after the other. */
    method PackRows(rleData: DeltaData, output: ByteBuffer, mode: TileMode)
      requires rleData.Valid() && rleData.width <= 256
      modifies output
      ensures output.bytes == old(output.bytes) + KeyframeBytes(rleData.tile.rows, mode)
    {
      ghost var rows := rleData.tile.rows;
      var y: nat := 0;
      EmptyTail(output.bytes);
      assert rows[..0] == [];
      while y < rleData.height
        invariant y <= rleData.height
        invariant output.bytes == old(output.bytes) + KeyframeBytes(rows[..y], mode)
      {
        var packedLine := PackRow(rleData.rows[y], rleData.width, mode, rows[y]);
        output.Append(packedLine);
        assert rows[..y + 1][..y] == rows[..y];
        Assoc(old(output.bytes), KeyframeBytes(rows[..y], mode), packedLine);
        y := y + 1;
      }
      assert rows[..y] == rows;
    }

    /** One row packed into a line buffer; what it takes of the buffer. */
    method PackRow(row: DeltaBitmapRow, width: nat, mode: TileMode,
                   ghost px: seq<Pixel>) returns (packedLine: seq<Byte>)
      requires row.Encodes(px) && |px| == width <= 256
      ensures packedLine == PackedRow(RowMasks(px), RowData(px), mode)
    {
      row.OpenEncodes(px, WRAPS);
      assert |RowData(px)| <= |px|;
      var line := new ByteBuffer();
      line.Resize(width * 4 + 32 + 2);
      var packedSize := row.PackForNetwork(line, mode);
      packedLine := line.bytes[..packedSize];
      Parts(PackedRow(row.rleMask, row.rleData, mode), Zeros(4 * width + 34)[packedSize..]);
    }

    /** A keyframe is appended; the cache stays as it is. */
    method EmitKeyframe(rleData: DeltaData, output: ByteBuffer, mode: TileMode)
      requires Valid() && rleData.Valid() && rleData.width <= 256
      modifies output
      ensures Valid() && View() == old(View())
      ensures output.bytes == old(output.bytes) + ([KEYFRAME] + KeyframeBytes(rleData.tile.rows, mode))
    {
      output.PushBack(KEYFRAME);
      PackRows(rleData, output, mode);
      Assoc(old(output.bytes), [KEYFRAME], KeyframeBytes(rleData.tile.rows, mode));
    }

    /** `compressOrDelta`: appends the message for a tile and remembers the tile. */
    method CompressOrDelta(pixmap: seq<Pixel>, startX: nat, startY: nat, width: nat, height: nat, bufferWidth: nat,
                           bufferHeight: nat, loc: TileLocation, output: ByteBuffer, wid: nat, forceKeyframe: bool,
                           mode: TileMode)
      returns (size: nat, ghost msg: seq<Byte>)
      requires Valid() && Fits2D(|pixmap|, startX, startY, width, height, bufferWidth, bufferHeight)
      requires width % 2 == 0 && width <= 256 && height <= 256
      modifies this, deltaEntries.Values, output
      ensures Valid() && fresh(deltaEntries.Values - old(deltaEntries.Values))
      ensures output.bytes == old(output.bytes) + msg && size == |output.bytes|
      ensures var tile := Tile(width, SubRows(pixmap, startX, startY, width, height, bufferWidth, bufferHeight));
              Step(old(View()), Compress(loc, tile, wid, forceKeyframe), View(), msg, mode)
    {
      ghost var server := View();
      var delta, rleData;
      delta, rleData, msg := CreateDelta(pixmap, startX, startY, width, height, bufferWidth, bufferHeight,
                                         loc, output, wid, forceKeyframe, mode);
      msg := if delta then msg else [KEYFRAME] + KeyframeBytes(rleData.tile.rows, mode);
      ghost var now := View();
      CompressStep(server, now, loc, rleData.tile, wid, forceKeyframe, mode, msg, delta);
      if !delta {
        EmitKeyframe(rleData, output, mode);
      }
      size := |output.bytes|;
    }
  }

  /** What was appended is the message of the protocol. */
  lemma {:induction false} CompressStep(s: Server, s': Server, loc: TileLocation, tile: Tile, wid: nat, force: bool,
                                        mode: TileMode, msg: seq<Byte>, delta: bool)
    requires Acceptable(tile) && s' == Server(s.cache[loc := Entry(wid, tile)], s.maxEntries)
    requires delta <==> loc in s.cache && !force && SameShape(s.cache[loc].tile, tile)
    requires if delta then IsMessage(Held(s.cache, loc), tile, force, mode, msg)
             else msg == [KEYFRAME] + KeyframeBytes(tile.rows, mode)
    ensures Step(s, Compress(loc, tile, wid, force), s', msg, mode)
  {
  }
}
