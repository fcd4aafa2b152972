/** The delta cache and its remote client as a protocol over values: what each call may do,
    what the client makes of each message, and that the two stay in step over every run. */
module CacheProtocol {
  import opened Numbers
  import opened Pixels
  import opened Seqs
  import opened DeltaFormat
  import opened Tiles
  import opened DeltaMaker
  import opened ClientKeyframe
  import opened ClientDelta

  datatype Entry = Entry(wid: nat, tile: Tile)
  type Cache = map<TileLocation, Entry>

  /** The cache and its size limit. */
  datatype Server = Server(cache: Cache, maxEntries: nat)

  datatype Event =
    | Compress(loc: TileLocation, tile: Tile, wid: nat, force: bool)
    | Rebalance(limit: int)
    | SetSessionCount(count: nat)
    | DropCache

  // ---------- the server ----------

  predicate SameShape(a: Tile, b: Tile) {
    a.width == b.width && |a.rows| == |b.rows|
  }

  function Held(cache: Cache, loc: TileLocation): Option<Tile> {
    match Find(cache, loc)
    case Some(entry) => Some(entry.tile)
    case None => None
  }

  /** The message for a tile: a delta when one is possible, else a keyframe. */
  ghost predicate IsMessage(held: Option<Tile>, tile: Tile, force: bool, mode: TileMode, msg: seq<Byte>) {
    if held.Some? && !force && SameShape(held.value, tile) then
      exists ops :: IsDelta(ops, held.value.rows, tile.rows, mode) && msg == [DELTA] + DeltaBytes(ops)
    else
      msg == [KEYFRAME] + KeyframeBytes(tile.rows, mode)
  }

  /** The bytes by which the client tells messages and operations apart. */
  lemma {:induction false} MessageCodes(held: Option<Tile>, tile: Tile, force: bool, mode: TileMode, msg: seq<Byte>)
    requires IsMessage(held, tile, force, mode, msg)
    ensures msg != []
    ensures msg[0] == if held.Some? && !force && SameShape(held.value, tile) then 68 else 90
    ensures msg[0] == 68 && |msg| > 1 ==> (msg[1] == 99 || msg[1] == 100) && msg[|msg| - 1] == 116
  {
    if held.Some? && !force && SameShape(held.value, tile) {
      var ops :| IsDelta(ops, held.value.rows, tile.rows, mode) && msg == [DELTA] + DeltaBytes(ops);
      if ops != [] {
        FirstCode(ops);
      }
    }
  }

  lemma {:induction false} FirstCode(ops: seq<Op>)
    requires AllFit(ops) && ops != []
    ensures Serialize(ops) != [] && (Serialize(ops)[0] == 99 || Serialize(ops)[0] == 100)
  {
    if |ops| > 1 {
      FirstCode(ops[..|ops| - 1]);
    } else {
      assert Serialize(ops) == Serialize([]) + OpBytes(ops[0]);
    }
  }

  /** `n` entries are dropped, none of them newer than one that is kept. */
  ghost predicate Evicted(before: Cache, after: Cache, n: nat) {
    after.Keys <= before.Keys && (forall l :: l in after ==> after[l] == before[l]) &&
    |after| + n == |before| &&
    forall k, d :: k in after && d in before && d !in after ==> before[d].wid <= before[k].wid
  }

  ghost predicate Rebalanced(before: Cache, maxEntries: nat, dropAll: bool, after: Cache) {
    if |before| > maxEntries || dropAll then
      Evicted(before, after, |before| - if dropAll then 0 else maxEntries * 3 / 4)
    else
      after == before
  }

  const SSIZE_MAX: nat := 0x7fff_ffff_ffff_ffff

  /** The conversion of a `size_t` to `ssize_t`. */
  function Signed(n: nat): int {
    var m := n % SIZE_T;
    if m <= SSIZE_MAX then m else m - SIZE_T
  }

  /** The limit for a number of sessions. */
  function SessionLimit(count: nat): int {
    Signed((if count > 1 then count else 1) * 96)
  }

  /** The limit in numbers: 96 for each session, with at least one, as long as that is a `ssize_t`. */
  lemma {:induction false} SessionLimitIs(count: nat)
    requires count <= 0x7fff_ffff_ffff_ffff / 96
    ensures SessionLimit(count) == if count == 0 then 96 else 96 * count
  {
  }

  function NewMax(limit: int, maxEntries: nat): nat {
    if limit > 0 then limit else maxEntries
  }

  /** A tile the generator takes: of even width, at most 256 by 256. */
  predicate Acceptable(t: Tile) {
    t.Valid() && t.width % 2 == 0 && t.width <= 256 && |t.rows| <= 256
  }

  ghost predicate Step(s: Server, e: Event, s': Server, msg: seq<Byte>, mode: TileMode) {
    match e
    case Compress(loc, tile, wid, force) =>
      Acceptable(tile) && IsMessage(Held(s.cache, loc), tile, force, mode, msg) &&
      s' == s.(cache := s.cache[loc := Entry(wid, tile)])
    case Rebalance(limit) =>
      s'.maxEntries == NewMax(limit, s.maxEntries) && Rebalanced(s.cache, s'.maxEntries, false, s'.cache) && msg == []
    case SetSessionCount(count) =>
      s'.maxEntries == NewMax(SessionLimit(count), s.maxEntries) &&
      Rebalanced(s.cache, s'.maxEntries, false, s'.cache) && msg == []
    case DropCache =>
      s'.maxEntries == s.maxEntries && Rebalanced(s.cache, s.maxEntries, true, s'.cache) && msg == []
  }

  /** Eviction is bounded and oldest first. */
  lemma {:induction false} EvictionBounds(before: Cache, maxEntries: nat, after: Cache)
    requires Rebalanced(before, maxEntries, false, after)
    ensures |after| <= maxEntries && after.Keys <= before.Keys
    ensures after != before <==> |before| > maxEntries
    ensures after != before ==> |after| == (3 * maxEntries) / 4
    ensures forall k, d :: k in after && d in before && d !in after ==> before[d].wid <= before[k].wid
  {
  }

  lemma {:induction false} RebalancedSize(before: Cache, maxEntries: nat, after: Cache)
    requires Rebalanced(before, maxEntries, false, after)
    ensures |after| <= maxEntries && (after == before <==> |before| <= maxEntries)
  {
  }

  // ---------- the client ----------

  /** A decoded tile: its width in pixels and its image. */
  datatype Shown = Shown(width: nat, image: Image)
  type Client = map<TileLocation, Shown>

  function Show(t: Tile, mode: TileMode): Shown {
    Shown(t.width, ImageOf(t.rows, mode))
  }

  /** A keyframe replaces what is shown; a delta changes it; a delta for a tile the client
      does not hold is dropped. */
  function ClientApply<K>(client: map<K, Shown>, loc: K, width: nat, height: nat, msg: seq<Byte>): map<K, Shown> {
    if msg == [] then client
    else if msg[0] == KEYFRAME then client[loc := Shown(width, UnrleImage(msg[1..], width, height))]
    else if msg[0] == DELTA && loc in client then
      client[loc := client[loc].(image := RunStream(msg[1..], client[loc].image))]
    else client
  }

  /** A keyframe makes any client show the tile. */
  lemma {:induction false} KeyframeShows(client: Client, loc: TileLocation, tile: Tile, mode: TileMode)
    requires Acceptable(tile)
    ensures ClientApply(client, loc, tile.width, |tile.rows|, [KEYFRAME] + KeyframeBytes(tile.rows, mode))
         == client[loc := Show(tile, mode)]
  {
    var msg := [KEYFRAME] + KeyframeBytes(tile.rows, mode);
    assert msg[1..] == KeyframeBytes(tile.rows, mode);
    KeyframeRoundTrip(tile.rows, mode, tile.width, msg[1..]);
  }

  /** A delta against the tile a client shows makes it show the new one. */
  lemma {:induction false} DeltaShows(client: Client, loc: TileLocation, held: Tile, tile: Tile, ops: seq<Op>,
                                      mode: TileMode)
    requires loc in client && client[loc] == Show(held, mode) && SameShape(held, tile)
    requires IsDelta(ops, held.rows, tile.rows, mode)
    ensures ClientApply(client, loc, tile.width, |tile.rows|, [DELTA] + DeltaBytes(ops))
         == client[loc := Show(tile, mode)]
  {
    var msg := [DELTA] + DeltaBytes(ops);
    assert msg[1..] == DeltaBytes(ops);
    StreamSplits(ops, [], client[loc].image);
    EmptyTail(DeltaBytes(ops));
  }

  /** Either way, a client that shows the held tile shows the new one afterwards. */
  lemma {:induction false} MessageShows(cache: Cache, client: Client, loc: TileLocation, tile: Tile, force: bool,
      mode: TileMode, msg: seq<Byte>)
    requires Acceptable(tile) && IsMessage(Held(cache, loc), tile, force, mode, msg)
    requires loc in cache ==> loc in client && client[loc] == Show(cache[loc].tile, mode)
    ensures ClientApply(client, loc, tile.width, |tile.rows|, msg) == client[loc := Show(tile, mode)]
  {
    var held := Held(cache, loc);
    if held.Some? && !force && SameShape(held.value, tile) {
      var ops :| IsDelta(ops, held.value.rows, tile.rows, mode) && msg == [DELTA] + DeltaBytes(ops);
      DeltaShows(client, loc, held.value, tile, ops, mode);
    } else {
      KeyframeShows(client, loc, tile, mode);
    }
  }

  // ---------- runs ----------

  /** A run of the server from its start. */
  ghost predicate IsRun(states: seq<Server>, events: seq<Event>, msgs: seq<seq<Byte>>, mode: TileMode) {
    |states| == |events| + 1 && |msgs| == |events| && states[0] == Server(map[], 0) &&
    forall i :: 0 <= i < |events| ==> Step(states[i], events[i], states[i + 1], msgs[i], mode)
  }

  function ClientStep(client: Client, e: Event, msg: seq<Byte>): Client {
    if e.Compress? then ClientApply(client, e.loc, e.tile.width, |e.tile.rows|, msg) else client
  }

  /** The client after the first n messages. */
  function ClientAfter(events: seq<Event>, msgs: seq<seq<Byte>>, n: nat): Client
    requires n <= |events| == |msgs|
  {
    if n == 0 then map[] else ClientStep(ClientAfter(events, msgs, n - 1), events[n - 1], msgs[n - 1])
  }

  /** The last tile rendered for each location. */
  function LastTiles(events: seq<Event>, n: nat): map<TileLocation, Tile>
    requires n <= |events|
  {
    if n == 0 then map[] else
      var e := events[n - 1];
      if e.Compress? then LastTiles(events, n - 1)[e.loc := e.tile] else LastTiles(events, n - 1)
  }

  /** The client shows exactly the last tile of every location; the cache holds only such tiles. */
  ghost predicate InStep(cache: Cache, client: Client, last: map<TileLocation, Tile>, mode: TileMode) {
    client.Keys == last.Keys &&
    (forall l :: l in last ==> client[l] == Show(last[l], mode)) &&
    forall l :: l in cache ==> l in last && cache[l].tile == last[l]
  }

  lemma {:induction false} DroppingKeepsInStep(before: Cache, after: Cache, maxEntries: nat, dropAll: bool,
      client: Client, last: map<TileLocation, Tile>, mode: TileMode)
    requires Rebalanced(before, maxEntries, dropAll, after) && InStep(before, client, last, mode)
    ensures InStep(after, client, last, mode)
  {
    assert forall l :: l in after ==> l in before && after[l] == before[l];
  }

  lemma {:induction false} RenderingKeepsInStep(cache: Cache, client: Client, last: map<TileLocation, Tile>,
      mode: TileMode, loc: TileLocation, tile: Tile, wid: nat)
    requires InStep(cache, client, last, mode)
    ensures InStep(cache[loc := Entry(wid, tile)], client[loc := Show(tile, mode)], last[loc := tile], mode)
  {
  }

  lemma {:induction false} StepKeepsInStep(s: Server, e: Event, s': Server, msg: seq<Byte>, client: Client,
      last: map<TileLocation, Tile>, mode: TileMode)
    requires Step(s, e, s', msg, mode) && InStep(s.cache, client, last, mode)
    ensures InStep(s'.cache, ClientStep(client, e, msg), if e.Compress? then last[e.loc := e.tile] else last, mode)
  {
    match e
    case Compress(loc, tile, wid, force) =>
      MessageShows(s.cache, client, loc, tile, force, mode, msg);
      RenderingKeepsInStep(s.cache, client, last, mode, loc, tile, wid);
    case Rebalance(_) => DroppingKeepsInStep(s.cache, s'.cache, s'.maxEntries, false, client, last, mode);
    case SetSessionCount(_) => DroppingKeepsInStep(s.cache, s'.cache, s'.maxEntries, false, client, last, mode);
    case DropCache => DroppingKeepsInStep(s.cache, s'.cache, s.maxEntries, true, client, last, mode);
  }

  /** Over every run, after every message, the client shows exactly the last tile rendered
      for each location. */
  lemma {:induction false} ClientStaysInStep(states: seq<Server>, events: seq<Event>, msgs: seq<seq<Byte>>,
      mode: TileMode, n: nat)
    requires IsRun(states, events, msgs, mode) && n <= |events|
    ensures InStep(states[n].cache, ClientAfter(events, msgs, n), LastTiles(events, n), mode)
  {
    if n > 0 {
      ClientStaysInStep(states, events, msgs, mode, n - 1);
      assert Step(states[n - 1], events[n - 1], states[n], msgs[n - 1], mode);
      StepKeepsInStep(states[n - 1], events[n - 1], states[n], msgs[n - 1],
        ClientAfter(events, msgs, n - 1), LastTiles(events, n - 1), mode);
    }
  }

  /** Every delta of a run is relative to the tile the client shows when it arrives. */
  lemma {:induction false} DeltasAreRelative(states: seq<Server>, events: seq<Event>, msgs: seq<seq<Byte>>,
      mode: TileMode, n: nat)
    requires IsRun(states, events, msgs, mode) && n < |events| && events[n].Compress?
    requires msgs[n] != [] && msgs[n][0] == DELTA
    ensures var client := ClientAfter(events, msgs, n);
            var loc := events[n].loc;
            loc in client && loc in LastTiles(events, n) && client[loc] == Show(LastTiles(events, n)[loc], mode) &&
            SameShape(LastTiles(events, n)[loc], events[n].tile) &&
            exists ops :: IsDelta(ops, LastTiles(events, n)[loc].rows, events[n].tile.rows, mode)
                       && msgs[n] == [DELTA] + DeltaBytes(ops)
  {
    ClientStaysInStep(states, events, msgs, mode, n);
    var e := events[n];
    assert Step(states[n], e, states[n + 1], msgs[n], mode);
  }

  /** An unchanged tile costs a single byte unless a keyframe is forced. */
  lemma {:induction false} UnchangedTileIsFree(cache: Cache, loc: TileLocation, tile: Tile, mode: TileMode,
                                               msg: seq<Byte>)
    requires loc in cache && SameShape(cache[loc].tile, tile) && IsMessage(Held(cache, loc), tile, false, mode, msg)
    ensures msg == [DELTA] <==> cache[loc].tile.rows == tile.rows
  {
    var ops :| IsDelta(ops, cache[loc].tile.rows, tile.rows, mode) && msg == [DELTA] + DeltaBytes(ops);
    if ops != [] {
      assert |DeltaBytes(ops)| > 0;
    }
  }
}
