/** Rendering a batch with its jobs interleaved: the cache, the output they share, and what the
    reader of the messages makes of them. */
module ConcurrentRender {
  import opened Numbers
  import opened Pixels
  import opened Seqs
  import opened Tiles
  import opened TileGeometry
  import opened DeltaMaker
  import opened ClientKeyframe
  import opened CacheProtocol
  import opened RenderTiles
  import Concurrent = ConcurrentCache

  // ---------- the jobs ----------

  ghost function JobAt(b: Batch, area: Area, i: nat): Concurrent.Job
    requires Prepared(b, area) && i < |b.tc.tiles|
  {
    Concurrent.Job(LocAt(b.tc, b.canonicalViewId, i), TileAt(b, area, i), b.tc.tiles[i].forced)
  }

  /** The first n jobs of a batch. A preview has a place among them, but is never begun: it does not
      go to the cache. */
  ghost function JobsOf(b: Batch, area: Area, n: nat): (jobs: seq<Concurrent.Job>)
    requires Prepared(b, area) && n <= |b.tc.tiles|
    ensures |jobs| == n
  {
    if n == 0 then [] else JobsOf(b, area, n - 1) + [JobAt(b, area, n - 1)]
  }

  lemma {:induction false} JobsOfAt(b: Batch, area: Area, n: nat, i: nat)
    requires Prepared(b, area) && i < n <= |b.tc.tiles|
    ensures JobsOf(b, area, n)[i] == JobAt(b, area, i)
  {
    if i < n - 1 {
      JobsOfAt(b, area, n - 1, i);
    }
  }

  ghost function AllJobs(b: Batch, area: Area): (jobs: seq<Concurrent.Job>)
    requires Prepared(b, area)
    ensures |jobs| == |b.tc.tiles|
  {
    JobsOf(b, area, |b.tc.tiles|)
  }

  /** No two tiles are at one place. */
  ghost predicate NoDuplicateTiles(tc: TileCombined) {
    forall i, k :: 0 <= i < k < |tc.tiles| ==>
      tc.tiles[i].posX != tc.tiles[k].posX || tc.tiles[i].posY != tc.tiles[k].posY
  }

  /** Comparing the places alone is enough. */
  lemma {:induction false} JobsDifferIff(b: Batch, area: Area)
    requires Prepared(b, area)
    ensures Concurrent.NoDuplicates(AllJobs(b, area)) <==> NoDuplicateTiles(b.tc)
  {
    var jobs, tiles := AllJobs(b, area), b.tc.tiles;
    forall i, k | 0 <= i < k < |tiles|
      ensures jobs[i].loc == jobs[k].loc <==> tiles[i].posX == tiles[k].posX && tiles[i].posY == tiles[k].posY
    {
      JobsOfAt(b, area, |tiles|, i);
      JobsOfAt(b, area, |tiles|, k);
    }
  }

  lemma {:induction false} JobAcceptable(b: Batch, area: Area, i: nat)
    requires Prepared(b, area) && i < |b.tc.tiles|
    ensures Acceptable(AllJobs(b, area)[i].tile)
  {
    JobsOfAt(b, area, |b.tc.tiles|, i);
    PaintedTileFits(b, area, i);
  }

  // ---------- the moves ----------

  /** The cache with its jobs, and the output. The images are kept beside the output they are in. */
  datatype Shared = Shared(cache: Concurrent.State, tiles: seq<Rendered>, output: seq<Byte>, images: seq<seq<Byte>>)

  /** A step of a job or an eviction, or a finished job at the output. */
  datatype Move = Work(step: Concurrent.Step) | Push(j: nat, data: seq<Byte>)

  ghost predicate Pushed(tiles: seq<Rendered>, j: nat) {
    exists i :: 0 <= i < |tiles| && tiles[i].tile == j
  }

  /** What job j may bring to the output. */
  ghost predicate IsImage(b: Batch, p: Concurrent.Phase, j: nat, data: seq<Byte>)
    requires j < |b.tc.tiles| == |b.png|
  {
    if b.tc.tiles[j].preview then b.png[j] == Some(data) else p.Done? && Concurrent.Sent(p.msg, b.mode, data)
  }

  ghost predicate Moves(b: Batch, jobs: seq<Concurrent.Job>, s: Shared, m: Move, s': Shared)
    requires |jobs| == |b.tc.tiles| == |b.png|
  {
    match m
    case Work(step) =>
      && Concurrent.Steps(jobs, s.cache, step, s'.cache) && (step.Lookup? ==> !b.tc.tiles[step.j].preview)
      && s' == s.(cache := s'.cache)
    case Push(j, data) =>
      && j < |jobs| == |s.cache.phases| && !Pushed(s.tiles, j) && IsImage(b, s.cache.phases[j], j, data)
      && s' == Shared(s.cache, s.tiles + [Rendered(j, WireId(b.lastWid, j), |data|)], s.output + data,
                      s.images + [data])
  }

  ghost predicate IsRender(b: Batch, jobs: seq<Concurrent.Job>, states: seq<Shared>, moves: seq<Move>) {
    && |jobs| == |b.tc.tiles| == |b.png| && |states| == |moves| + 1
    && Concurrent.Start(jobs, states[0].cache) && states[0] == Shared(states[0].cache, [], [], [])
    && forall i :: 0 <= i < |moves| ==> Moves(b, jobs, states[i], moves[i], states[i + 1])
  }

  /** Every tile that goes to the cache has come to the output. */
  ghost predicate AllPushed(b: Batch, tiles: seq<Rendered>) {
    forall j :: 0 <= j < |b.tc.tiles| && !b.tc.tiles[j].preview ==> Pushed(tiles, j)
  }

  // ---------- what every move keeps ----------

  /** What is known of job j from its entry in the output. */
  ghost predicate EntrySound(b: Batch, phases: seq<Concurrent.Phase>, t: Rendered, image: seq<Byte>)
    requires |phases| == |b.tc.tiles| == |b.png|
  {
    && t.tile < |phases| && IsImage(b, phases[t.tile], t.tile, image)
    && t == Rendered(t.tile, WireId(b.lastWid, t.tile), |image|)
  }

  /** No tile is in the output twice. */
  ghost predicate Different(tiles: seq<Rendered>) {
    forall i, k :: 0 <= i < k < |tiles| ==> tiles[i].tile != tiles[k].tile
  }

  ghost predicate Sound(b: Batch, jobs: seq<Concurrent.Job>, s: Shared) {
    && |s.cache.phases| == |jobs| == |b.tc.tiles| == |b.png|
    && InLine(s.tiles, s.output, s.images)
    && (forall i :: 0 <= i < |s.tiles| ==> EntrySound(b, s.cache.phases, s.tiles[i], s.images[i]))
    && Different(s.tiles)
    && forall j :: 0 <= j < |jobs| && b.tc.tiles[j].preview ==> s.cache.phases[j].Todo?
  }

  /** A job that is done stays so, and one that is not looked up stays undone. */
  lemma {:induction false} PhaseStays(jobs: seq<Concurrent.Job>, s: Concurrent.State, step: Concurrent.Step,
                                      s': Concurrent.State, j: nat)
    requires Concurrent.Steps(jobs, s, step, s') && j < |jobs|
    ensures |s'.phases| == |jobs|
    ensures s.phases[j].Done? || (s.phases[j].Todo? && step != Concurrent.Lookup(j)) ==> s'.phases[j] == s.phases[j]
  {
  }

  lemma {:induction false} WorkKeepsSound(b: Batch, jobs: seq<Concurrent.Job>, s: Shared, m: Move, s': Shared)
    requires Sound(b, jobs, s) && Moves(b, jobs, s, m, s') && m.Work?
    ensures Sound(b, jobs, s')
  {
    forall i | 0 <= i < |s.tiles| ensures EntrySound(b, s'.cache.phases, s.tiles[i], s.images[i]) {
      assert EntrySound(b, s.cache.phases, s.tiles[i], s.images[i]);
      PhaseStays(jobs, s.cache, m.step, s'.cache, s.tiles[i].tile);
    }
    forall j | 0 <= j < |jobs| && b.tc.tiles[j].preview ensures s'.cache.phases[j].Todo? {
      PhaseStays(jobs, s.cache, m.step, s'.cache, j);
    }
  }

  lemma {:induction false} PushKeepsSound(b: Batch, jobs: seq<Concurrent.Job>, s: Shared, m: Move, s': Shared)
    requires Sound(b, jobs, s) && Moves(b, jobs, s, m, s') && m.Push?
    ensures Sound(b, jobs, s')
  {
    JoinedSnoc(s.images, m.data);
    forall i | 0 <= i < |s'.tiles| ensures EntrySound(b, s'.cache.phases, s'.tiles[i], s'.images[i]) {
      assert i < |s.tiles| ==> EntrySound(b, s.cache.phases, s.tiles[i], s.images[i]);
    }
  }

  /** However the jobs are interleaved, the sizes and the output stay in line, and no tile is in it twice. */
  lemma {:induction false} RenderSound(b: Batch, jobs: seq<Concurrent.Job>, states: seq<Shared>, moves: seq<Move>,
                                       n: nat)
    requires IsRender(b, jobs, states, moves) && n <= |moves|
    ensures Sound(b, jobs, states[n])
  {
    if n > 0 {
      RenderSound(b, jobs, states, moves, n - 1);
      assert Moves(b, jobs, states[n - 1], moves[n - 1], states[n - 1 + 1]);
      if moves[n - 1].Work? {
        WorkKeepsSound(b, jobs, states[n - 1], moves[n - 1], states[n]);
      } else {
        PushKeepsSound(b, jobs, states[n - 1], moves[n - 1], states[n]);
      }
    }
  }

  lemma {:induction false} EntryMeans(b: Batch, phases: seq<Concurrent.Phase>, t: Rendered, image: seq<Byte>)
    requires |phases| == |b.tc.tiles| == |b.png| && EntrySound(b, phases, t, image)
    ensures t.imgSize == |image| && t.wid == (b.lastWid + 1 + t.tile) % 0x1_0000_0000
  {
  }

  lemma {:induction false} SoundEntry(b: Batch, jobs: seq<Concurrent.Job>, s: Shared, i: nat)
    requires Sound(b, jobs, s) && i < |s.tiles|
    ensures i < |s.images| && |s.cache.phases| == |b.tc.tiles| == |b.png|
    ensures EntrySound(b, s.cache.phases, s.tiles[i], s.images[i])
  {
  }

  /** What is announced of a tile: its wire id, counted up from the last batch in 32 bits, and the size
      of its image. */
  lemma {:induction false} AnnouncedTile(b: Batch, jobs: seq<Concurrent.Job>, s: Shared, i: nat)
    requires Sound(b, jobs, s) && i < |s.tiles|
    ensures i < |s.images| && s.tiles[i].imgSize == |s.images[i]|
    ensures s.tiles[i].wid == (b.lastWid + 1 + s.tiles[i].tile) % 0x1_0000_0000
  {
    SoundEntry(b, jobs, s, i);
    EntryMeans(b, s.cache.phases, s.tiles[i], s.images[i]);
  }

  /** Without the pushes, it is a run of the cache. */
  lemma {:induction false} CacheRun(b: Batch, jobs: seq<Concurrent.Job>, states: seq<Shared>, moves: seq<Move>, n: nat)
    returns (run: seq<Concurrent.State>, steps: seq<Concurrent.Step>)
    requires IsRender(b, jobs, states, moves) && n <= |moves|
    ensures Concurrent.IsRun(jobs, run, steps) && run[0] == states[0].cache && run[|steps|] == states[n].cache
  {
    if n == 0 {
      run, steps := [states[0].cache], [];
    } else {
      run, steps := CacheRun(b, jobs, states, moves, n - 1);
      assert Moves(b, jobs, states[n - 1], moves[n - 1], states[n - 1 + 1]);
      if moves[n - 1].Work? {
        Concurrent.RunSnoc(jobs, run, steps, moves[n - 1].step, states[n].cache);
        run, steps := run + [states[n].cache], steps + [moves[n - 1].step];
      }
    }
  }

  // ---------- reading the messages ----------

  lemma {:induction false} OffsetInside(tiles: seq<Rendered>, i: nat, n: nat)
    requires i < n <= |tiles|
    ensures OffsetOf(tiles, i) + tiles[i].imgSize <= OffsetOf(tiles, n)
  {
    if i < n - 1 {
      OffsetInside(tiles, i, n - 1);
    }
  }

  /** The messages are as long as the headers say. */
  predicate Announced(headers: Headers, combined: bool, tiles: seq<Rendered>, sent: seq<seq<Byte>>) {
    if combined then |sent| == 1 && |sent[0]| == |headers.combined(tiles)| + OffsetOf(tiles, |tiles|)
    else |sent| == |tiles| && forall i :: 0 <= i < |sent| ==> |sent[i]| == |headers.single(tiles[i])| + tiles[i].imgSize
  }

  /** The image of tile i: behind the header and, in a message for all, behind the images before it. */
  function CutOut(headers: Headers, combined: bool, tiles: seq<Rendered>, sent: seq<seq<Byte>>, i: nat): seq<Byte>
    requires Announced(headers, combined, tiles, sent) && i < |tiles|
  {
    if combined then
      OffsetInside(tiles, i, |tiles|);
      var at := |headers.combined(tiles)| + OffsetOf(tiles, i);
      sent[0][at..at + tiles[i].imgSize]
    else sent[i][|headers.single(tiles[i])|..]
  }

  /** Either way of sending, each image is found. */
  lemma {:induction false} CutOutImages(headers: Headers, combined: bool, tiles: seq<Rendered>, output: seq<Byte>,
                                        images: seq<seq<Byte>>, i: nat)
    requires InLine(tiles, output, images)
    ensures var sent := MessagesOf(headers, combined, tiles, images);
            Announced(headers, combined, tiles, sent) &&
            (i < |tiles| ==> CutOut(headers, combined, tiles, sent, i) == images[i])
  {
    SizesFindImages(tiles, images, |tiles|);
    if combined {
      if i < |tiles| {
        SizesFindImages(tiles, images, i);
        SliceBehind(headers.combined(tiles), Joined(images), OffsetOf(tiles, i), OffsetOf(tiles, i) + tiles[i].imgSize);
      }
    } else if i < |tiles| {
      Parts(headers.single(tiles[i]), images[i]);
    }
  }

  /** A client that gets the images of the first n tiles; previews are shown elsewhere. */
  function Read(b: Batch, jobs: seq<Concurrent.Job>, client: Client, headers: Headers, combined: bool,
                tiles: seq<Rendered>, sent: seq<seq<Byte>>, n: nat): Client
    requires Announced(headers, combined, tiles, sent) && n <= |tiles| && |jobs| == |b.tc.tiles|
    requires forall i :: 0 <= i < |tiles| ==> tiles[i].tile < |jobs|
  {
    if n == 0 then client
    else
      var before := Read(b, jobs, client, headers, combined, tiles, sent, n - 1);
      var j := tiles[n - 1].tile;
      if b.tc.tiles[j].preview then before
      else
        ClientApply(before, jobs[j].loc, jobs[j].tile.width, |jobs[j].tile.rows|,
                    CutOut(headers, combined, tiles, sent, n - 1))
  }

  /** The jobs whose messages are among the first n images, in that order. */
  function OrderOf(b: Batch, tiles: seq<Rendered>, n: nat): seq<nat>
    requires n <= |tiles| && forall i :: 0 <= i < |tiles| ==> tiles[i].tile < |b.tc.tiles|
  {
    if n == 0 then []
    else
      var j := tiles[n - 1].tile;
      OrderOf(b, tiles, n - 1) + if b.tc.tiles[j].preview then [] else [j]
  }

  // ---------- the batch as the concurrent cache sees it ----------

  lemma {:induction false} OrderHas(b: Batch, tiles: seq<Rendered>, n: nat, j: nat)
    requires n <= |tiles| && j < |b.tc.tiles| && forall i :: 0 <= i < |tiles| ==> tiles[i].tile < |b.tc.tiles|
    ensures j in OrderOf(b, tiles, n) <==> !b.tc.tiles[j].preview && Pushed(tiles[..n], j)
  {
    if n > 0 {
      OrderHas(b, tiles, n - 1, j);
      TakeSnoc(tiles, n - 1);
      var front := tiles[..n - 1];
      assert tiles[..n][n - 1] == tiles[n - 1];
      if i :| 0 <= i < |front| && front[i].tile == j {
        assert tiles[..n][i].tile == j;
      }
    }
  }

  lemma {:induction false} OrderIsOrder(b: Batch, tiles: seq<Rendered>, n: nat)
    requires n <= |tiles| && Different(tiles) && forall i :: 0 <= i < |tiles| ==> tiles[i].tile < |b.tc.tiles|
    ensures IsOrder(OrderOf(b, tiles, n), |b.tc.tiles|)
  {
    if n > 0 {
      OrderIsOrder(b, tiles, n - 1);
      OrderHas(b, tiles, n - 1, tiles[n - 1].tile);
    }
  }

  function Nothing(n: nat): (r: seq<seq<Byte>>)
    ensures |r| == n
  {
    if n == 0 then [] else Nothing(n - 1) + [[]]
  }

  /** The images by the jobs they are of. */
  function ByJob(tiles: seq<Rendered>, images: seq<seq<Byte>>, jobs: nat, n: nat): (r: seq<seq<Byte>>)
    requires n <= |tiles| == |images| && forall i :: 0 <= i < |tiles| ==> tiles[i].tile < jobs
    ensures |r| == jobs
  {
    if n == 0 then Nothing(jobs) else ByJob(tiles, images, jobs, n - 1)[tiles[n - 1].tile := images[n - 1]]
  }

  lemma {:induction false} ByJobAt(tiles: seq<Rendered>, images: seq<seq<Byte>>, jobs: nat, n: nat, i: nat)
    requires i < n <= |tiles| == |images| && Different(tiles) && forall i :: 0 <= i < |tiles| ==> tiles[i].tile < jobs
    ensures ByJob(tiles, images, jobs, n)[tiles[i].tile] == images[i]
  {
    if i < n - 1 {
      ByJobAt(tiles, images, jobs, n - 1, i);
    }
  }

  lemma {:induction false} SoundParts(b: Batch, jobs: seq<Concurrent.Job>, s: Shared)
    requires Sound(b, jobs, s)
    ensures |s.tiles| == |s.images| && Different(s.tiles)
    ensures forall i :: 0 <= i < |s.tiles| ==> s.tiles[i].tile < |b.tc.tiles|
  {
    forall i | 0 <= i < |s.tiles| ensures s.tiles[i].tile < |b.tc.tiles| {
      assert EntrySound(b, s.cache.phases, s.tiles[i], s.images[i]);
    }
  }

  lemma {:induction false} JobAtEnd(b: Batch, jobs: seq<Concurrent.Job>, s: Shared, order: seq<nat>,
                                    bytes: seq<seq<Byte>>, j: nat)
    requires Sound(b, jobs, s) && AllPushed(b, s.tiles) && j < |jobs| && Acceptable(jobs[j].tile)
    requires Different(s.tiles) && forall i :: 0 <= i < |s.tiles| ==> s.tiles[i].tile < |b.tc.tiles|
    requires order == OrderOf(b, s.tiles, |s.tiles|) && bytes == ByJob(s.tiles, s.images, |jobs|, |s.tiles|)
    ensures Concurrent.JobDone(jobs[j], s.cache.phases[j], j in order, bytes[j], b.mode)
  {
    OrderHas(b, s.tiles, |s.tiles|, j);
    assert s.tiles[..|s.tiles|] == s.tiles;
    if !b.tc.tiles[j].preview {
      var i :| 0 <= i < |s.tiles| && s.tiles[i].tile == j;
      assert EntrySound(b, s.cache.phases, s.tiles[i], s.images[i]);
      ByJobAt(s.tiles, s.images, |jobs|, |s.tiles|, i);
    }
  }

  /** When every tile has come to the output, the jobs are done as a batch is. */
  lemma {:induction false} RenderIsBatch(b: Batch, jobs: seq<Concurrent.Job>, s: Shared, order: seq<nat>,
                                         bytes: seq<seq<Byte>>)
    requires Sound(b, jobs, s) && AllPushed(b, s.tiles) && forall j :: 0 <= j < |jobs| ==> Acceptable(jobs[j].tile)
    requires Different(s.tiles) && forall i :: 0 <= i < |s.tiles| ==> s.tiles[i].tile < |b.tc.tiles|
    requires order == OrderOf(b, s.tiles, |s.tiles|) && bytes == ByJob(s.tiles, s.images, |jobs|, |s.tiles|)
    ensures Concurrent.BatchDone(jobs, s.cache, order, bytes, b.mode)
  {
    OrderIsOrder(b, s.tiles, |s.tiles|);
    forall j | 0 <= j < |jobs| ensures Concurrent.JobDone(jobs[j], s.cache.phases[j], j in order, bytes[j], b.mode) {
      JobAtEnd(b, jobs, s, order, bytes, j);
    }
  }

  lemma {:induction false} DeliveredBefore(client: Client, jobs: seq<Concurrent.Job>, order: seq<nat>, j: nat,
                                           bytes: seq<seq<Byte>>, n: nat)
    requires n <= |order| && |bytes| == |jobs| && j < |jobs| && forall i :: 0 <= i < |order| ==> order[i] < |jobs|
    ensures Concurrent.Delivered(client, jobs, order + [j], bytes, n)
         == Concurrent.Delivered(client, jobs, order, bytes, n)
  {
    if n > 0 {
      DeliveredBefore(client, jobs, order, j, bytes, n - 1);
    }
  }

  lemma {:induction false} DeliveredSnoc(client: Client, jobs: seq<Concurrent.Job>, order: seq<nat>, j: nat,
                                         bytes: seq<seq<Byte>>)
    requires |bytes| == |jobs| && j < |jobs| && forall i :: 0 <= i < |order| ==> order[i] < |jobs|
    ensures Concurrent.Delivered(client, jobs, order + [j], bytes, |order| + 1)
         == ClientApply(Concurrent.Delivered(client, jobs, order, bytes, |order|), jobs[j].loc, jobs[j].tile.width,
                        |jobs[j].tile.rows|, bytes[j])
  {
    DeliveredBefore(client, jobs, order, j, bytes, |order|);
  }

  lemma {:induction false} OrderBelow(b: Batch, tiles: seq<Rendered>, n: nat)
    requires n <= |tiles| && forall i :: 0 <= i < |tiles| ==> tiles[i].tile < |b.tc.tiles|
    ensures forall i :: 0 <= i < |OrderOf(b, tiles, n)| ==> OrderOf(b, tiles, n)[i] < |b.tc.tiles|
  {
    if n > 0 {
      OrderBelow(b, tiles, n - 1);
    }
  }

  lemma {:induction false} ReadNext(b: Batch, jobs: seq<Concurrent.Job>, client: Client, headers: Headers,
      combined: bool, s: Shared, sent: seq<seq<Byte>>, n: nat)
    requires n < |s.tiles| && |jobs| == |b.tc.tiles| && InLine(s.tiles, s.output, s.images)
    requires forall i :: 0 <= i < |s.tiles| ==> s.tiles[i].tile < |b.tc.tiles|
    requires sent == MessagesOf(headers, combined, s.tiles, s.images) && Announced(headers, combined, s.tiles, sent)
    ensures var j := s.tiles[n].tile;
            var before := Read(b, jobs, client, headers, combined, s.tiles, sent, n);
            Read(b, jobs, client, headers, combined, s.tiles, sent, n + 1) ==
              if b.tc.tiles[j].preview then before
              else ClientApply(before, jobs[j].loc, jobs[j].tile.width, |jobs[j].tile.rows|, s.images[n])
  {
    CutOutImages(headers, combined, s.tiles, s.output, s.images, n);
  }

  /** Reading the messages delivers each job's bytes, in the order of the output. */
  lemma {:induction false} ReadDelivers(b: Batch, jobs: seq<Concurrent.Job>, client: Client, headers: Headers,
      combined: bool, s: Shared, sent: seq<seq<Byte>>, bytes: seq<seq<Byte>>, n: nat)
    requires n <= |s.tiles| && |jobs| == |b.tc.tiles| && InLine(s.tiles, s.output, s.images)
    requires forall i :: 0 <= i < |s.tiles| ==> s.tiles[i].tile < |b.tc.tiles|
    requires sent == MessagesOf(headers, combined, s.tiles, s.images) && Announced(headers, combined, s.tiles, sent)
    requires |bytes| == |jobs| && forall i :: 0 <= i < |s.tiles| ==> bytes[s.tiles[i].tile] == s.images[i]
    ensures forall i :: 0 <= i < |OrderOf(b, s.tiles, n)| ==> OrderOf(b, s.tiles, n)[i] < |b.tc.tiles|
    ensures Read(b, jobs, client, headers, combined, s.tiles, sent, n)
         == Concurrent.Delivered(client, jobs, OrderOf(b, s.tiles, n), bytes, |OrderOf(b, s.tiles, n)|)
  {
    OrderBelow(b, s.tiles, n);
    if n > 0 {
      ReadDelivers(b, jobs, client, headers, combined, s, sent, bytes, n - 1);
      ReadNext(b, jobs, client, headers, combined, s, sent, n - 1);
      var j, order := s.tiles[n - 1].tile, OrderOf(b, s.tiles, n - 1);
      if b.tc.tiles[j].preview {
        EmptyTail(order);
      } else {
        DeliveredSnoc(client, jobs, order, j, bytes);
      }
    }
  }

  // ---------- the client in step ----------

  /** The order in which the tiles of a batch came to the output. */
  function EndOrder(b: Batch, s: Shared): seq<nat>
    requires forall i :: 0 <= i < |s.tiles| ==> s.tiles[i].tile < |b.tc.tiles|
  {
    OrderOf(b, s.tiles, |s.tiles|)
  }

  /** A batch rendered to its end. */
  ghost predicate Renders(b: Batch, area: Area, states: seq<Shared>, moves: seq<Move>) {
    && Paints(b, area) && NoDuplicateTiles(b.tc) && IsRender(b, AllJobs(b, area), states, moves)
    && AllPushed(b, states[|moves|].tiles)
  }

  /** The client shows what the cache holds. */
  ghost predicate ShowsCache(client: Client, s: Concurrent.State, mode: TileMode) {
    Concurrent.CacheFits(s) && Concurrent.InStepWith(client, Concurrent.StartTiles(s), mode)
  }

  /** The sizes cut the messages into the images, and no image is there twice. */
  ghost predicate Readable(b: Batch, s: Shared, headers: Headers, combined: bool) {
    && InLine(s.tiles, s.output, s.images) && (forall i :: 0 <= i < |s.tiles| ==> s.tiles[i].tile < |b.tc.tiles|)
    && Announced(headers, combined, s.tiles, MessagesOf(headers, combined, s.tiles, s.images))
    && IsOrder(EndOrder(b, s), |b.tc.tiles|)
  }

  /** A client that reads the messages of a batch. */
  ghost function ClientAfter(b: Batch, jobs: seq<Concurrent.Job>, s: Shared, headers: Headers, combined: bool,
                             client: Client): Client
    requires Readable(b, s, headers, combined) && |jobs| == |b.tc.tiles|
  {
    Read(b, jobs, client, headers, combined, s.tiles, MessagesOf(headers, combined, s.tiles, s.images), |s.tiles|)
  }

  lemma {:induction false} RenderReadable(b: Batch, area: Area, states: seq<Shared>, moves: seq<Move>, headers: Headers,
                                          combined: bool)
    requires Renders(b, area, states, moves)
    ensures Sound(b, AllJobs(b, area), states[|moves|]) && Readable(b, states[|moves|], headers, combined)
  {
    var s := states[|moves|];
    RenderSound(b, AllJobs(b, area), states, moves, |moves|);
    SoundParts(b, AllJobs(b, area), s);
    CutOutImages(headers, combined, s.tiles, s.output, s.images, 0);
    OrderIsOrder(b, s.tiles, |s.tiles|);
  }

  /** However the jobs of a batch are interleaved, whatever is evicted meanwhile and in whatever
      order their images come to the output: the sizes cut the messages into the images, whether
      there is one for all or one for each, and a client in step with the cache that reads them is
      shown each tile of the batch, and is in step with the cache again. */
  lemma {:induction false} RenderKeepsInStep(b: Batch, area: Area, states: seq<Shared>, moves: seq<Move>,
      headers: Headers, combined: bool, client: Client)
    requires Renders(b, area, states, moves) && ShowsCache(client, states[0].cache, b.mode)
    ensures Readable(b, states[|moves|], headers, combined)
    ensures ClientAfter(b, AllJobs(b, area), states[|moves|], headers, combined, client)
         == Concurrent.Rendered(client, AllJobs(b, area), EndOrder(b, states[|moves|]),
                                |EndOrder(b, states[|moves|])|, b.mode)
    ensures ShowsCache(ClientAfter(b, AllJobs(b, area), states[|moves|], headers, combined, client),
                       states[|moves|].cache, b.mode)
  {
    var jobs, s := AllJobs(b, area), states[|moves|];
    RenderReadable(b, area, states, moves, headers, combined);
    SoundParts(b, jobs, s);
    var order, bytes := EndOrder(b, s), ByJob(s.tiles, s.images, |jobs|, |s.tiles|);
    forall i | 0 <= i < |s.tiles| ensures bytes[s.tiles[i].tile] == s.images[i] {
      ByJobAt(s.tiles, s.images, |jobs|, |s.tiles|, i);
    }
    ReadDelivers(b, jobs, client, headers, combined, s, MessagesOf(headers, combined, s.tiles, s.images), bytes,
                 |s.tiles|);
    forall j | 0 <= j < |jobs| ensures Acceptable(jobs[j].tile) {
      JobAcceptable(b, area, j);
    }
    RenderIsBatch(b, jobs, s, order, bytes);
    var run, steps := CacheRun(b, jobs, states, moves, |moves|);
    JobsDifferIff(b, area);
    Concurrent.BatchKeepsInStep(jobs, run, steps, client, order, bytes, b.mode);
  }

  // ---------- a batch that is rendered ----------

  lemma {:induction false} RenderSnoc(b: Batch, jobs: seq<Concurrent.Job>, states: seq<Shared>, moves: seq<Move>,
                                      m: Move, s: Shared)
    requires IsRender(b, jobs, states, moves) && Moves(b, jobs, states[|moves|], m, s)
    ensures IsRender(b, jobs, states + [s], moves + [m])
  {
    var states', moves' := states + [s], moves + [m];
    forall i | 0 <= i < |moves'| ensures Moves(b, jobs, states'[i], moves'[i], states'[i + 1]) {
      if i < |moves| {
        assert Moves(b, jobs, states[i], moves[i], states[i + 1]);
      }
    }
  }

  /** The first n tiles have come to the output, and the cache knows no other. */
  ghost predicate FirstRendered(b: Batch, jobs: seq<Concurrent.Job>, s: Shared, n: nat) {
    && |s.cache.phases| == |jobs| == |b.tc.tiles| && n <= |jobs|
    && (forall j :: n <= j < |jobs| ==> s.cache.phases[j].Todo?)
    && (forall l :: l in s.cache.cache ==> exists j :: 0 <= j < n && jobs[j].loc == l)
    && (forall i :: 0 <= i < |s.tiles| ==> s.tiles[i].tile < n)
    && forall j :: 0 <= j < n && !b.tc.tiles[j].preview ==> Pushed(s.tiles, j)
  }

  lemma {:induction false} RenderOne(b: Batch, jobs: seq<Concurrent.Job>, states: seq<Shared>, moves: seq<Move>, n: nat)
    returns (states': seq<Shared>, moves': seq<Move>)
    requires IsRender(b, jobs, states, moves) && FirstRendered(b, jobs, states[|moves|], n) && n < |jobs|
    requires Concurrent.NoDuplicates(jobs) && !b.tc.tiles[n].preview
    ensures IsRender(b, jobs, states', moves') && states'[0] == states[0]
    ensures FirstRendered(b, jobs, states'[|moves'|], n + 1)
  {
    var s, tile := states[|moves|], jobs[n].tile;
    assert jobs[n].loc !in s.cache.cache;
    var data := [KEYFRAME] + KeyframeBytes(tile.rows, b.mode);
    var c1 := Concurrent.Next(jobs, s.cache, Concurrent.Lookup(n));
    var c2 := Concurrent.Next(jobs, c1, Concurrent.Pack(n));
    var s1, s2 := s.(cache := c1), s.(cache := c2);
    var s3 := Shared(c2, s.tiles + [Rendered(n, WireId(b.lastWid, n), |data|)], s.output + data, s.images + [data]);
    RenderSnoc(b, jobs, states, moves, Work(Concurrent.Lookup(n)), s1);
    states', moves' := states + [s1], moves + [Work(Concurrent.Lookup(n))];
    RenderSnoc(b, jobs, states', moves', Work(Concurrent.Pack(n)), s2);
    states', moves' := states' + [s2], moves' + [Work(Concurrent.Pack(n))];
    RenderSnoc(b, jobs, states', moves', Push(n, data), s3);
    states', moves' := states' + [s3], moves' + [Push(n, data)];
    RenderedMore(b, jobs, s, s3, n);
  }

  lemma {:induction false} RenderedMore(b: Batch, jobs: seq<Concurrent.Job>, s: Shared, s': Shared, n: nat)
    requires FirstRendered(b, jobs, s, n) && n < |jobs| == |s'.cache.phases|
    requires forall j :: n < j < |jobs| ==> s'.cache.phases[j] == s.cache.phases[j]
    requires s'.cache.cache.Keys == s.cache.cache.Keys + {jobs[n].loc}
    requires |s'.tiles| == |s.tiles| + 1 && s'.tiles[..|s.tiles|] == s.tiles && s'.tiles[|s.tiles|].tile == n
    ensures FirstRendered(b, jobs, s', n + 1)
  {
    forall i | 0 <= i < |s.tiles| ensures s'.tiles[i] == s.tiles[i] {
      assert s'.tiles[..|s.tiles|][i] == s'.tiles[i];
    }
    forall j | 0 <= j < n + 1 && !b.tc.tiles[j].preview ensures Pushed(s'.tiles, j) {
      if j < n {
        var i :| 0 <= i < |s.tiles| && s.tiles[i].tile == j;
        assert s'.tiles[i].tile == j;
      }
    }
    forall l | l in s'.cache.cache ensures exists j :: 0 <= j < n + 1 && jobs[j].loc == l {
      if l in s.cache.cache {
        var j :| 0 <= j < n && jobs[j].loc == l;
      } else {
        assert jobs[n].loc == l;
      }
    }
  }

  lemma {:induction false} RenderFirst(b: Batch, jobs: seq<Concurrent.Job>, cold: Concurrent.State, n: nat)
    returns (states: seq<Shared>, moves: seq<Move>)
    requires |jobs| == |b.tc.tiles| == |b.png| && Concurrent.NoDuplicates(jobs)
    requires Concurrent.Start(jobs, cold) && cold.cache == map[] && n <= |jobs|
    ensures IsRender(b, jobs, states, moves) && states[0].cache == cold
    ensures FirstRendered(b, jobs, states[|moves|], n)
  {
    if n == 0 {
      states, moves := [Shared(cold, [], [], [])], [];
    } else {
      states, moves := RenderFirst(b, jobs, cold, n - 1);
      if !b.tc.tiles[n - 1].preview {
        states, moves := RenderOne(b, jobs, states, moves, n - 1);
      }
    }
  }

  /** Every batch without duplicates can be rendered to its end, also when nothing is cached yet. */
  lemma {:induction false} ColdBatchRenders(b: Batch, area: Area, cold: Concurrent.State)
    returns (states: seq<Shared>, moves: seq<Move>)
    requires Paints(b, area) && NoDuplicateTiles(b.tc)
    requires Concurrent.Start(AllJobs(b, area), cold) && cold.cache == map[]
    ensures Renders(b, area, states, moves) && states[0].cache == cold
  {
    JobsDifferIff(b, area);
    states, moves := RenderFirst(b, AllJobs(b, area), cold, |b.tc.tiles|);
  }

  // ---------- batch after batch ----------

  /** One call of `doRender`. */
  datatype Render = Render(b: Batch, area: Area, states: seq<Shared>, moves: seq<Move>, headers: Headers,
                           combined: bool)

  /** A call that renders its batch to the end, wrapped. */
  ghost predicate IsWhole(r: Render, mode: TileMode) {
    |r.states| == |r.moves| + 1 && Whole(r, mode, WRAPS)
  }

  ghost predicate Whole(r: Render, mode: TileMode, wraps: nat) {
    if wraps > 0 then Whole(r, mode, wraps - 1) else Renders(r.b, r.area, r.states, r.moves) && r.b.mode == mode
  }

  lemma {:induction false} OpenWhole(r: Render, mode: TileMode, wraps: nat)
    ensures Whole(r, mode, wraps) <==> Renders(r.b, r.area, r.states, r.moves) && r.b.mode == mode
  {
    if wraps > 0 {
      OpenWhole(r, mode, wraps - 1);
    }
  }

  ghost function ReadOne(r: Render, client: Client, mode: TileMode): Client
    requires IsWhole(r, mode)
  {
    OpenWhole(r, mode, WRAPS);
    RenderReadable(r.b, r.area, r.states, r.moves, r.headers, r.combined);
    ClientAfter(r.b, AllJobs(r.b, r.area), r.states[|r.moves|], r.headers, r.combined, client)
  }

  ghost function ShownOne(r: Render, client: Client, mode: TileMode): Client
    requires IsWhole(r, mode)
  {
    OpenWhole(r, mode, WRAPS);
    RenderReadable(r.b, r.area, r.states, r.moves, r.headers, r.combined);
    var order := EndOrder(r.b, r.states[|r.moves|]);
    Concurrent.Rendered(client, AllJobs(r.b, r.area), order, |order|, mode)
  }

  lemma {:induction false} OneKeepsInStep(r: Render, client: Client, mode: TileMode)
    requires IsWhole(r, mode) && ShowsCache(client, r.states[0].cache, mode)
    ensures ReadOne(r, client, mode) == ShownOne(r, client, mode)
    ensures ShowsCache(ReadOne(r, client, mode), r.states[|r.moves|].cache, mode)
  {
    OpenWhole(r, mode, WRAPS);
    RenderKeepsInStep(r.b, r.area, r.states, r.moves, r.headers, r.combined, client);
  }

  /** No tile in the cache but those that were there before. */
  ghost predicate KeptOnly(s: Concurrent.State, s': Concurrent.State) {
    Concurrent.CacheFits(s) && Concurrent.CacheFits(s') ==>
      Concurrent.Dropped(Concurrent.StartTiles(s), Concurrent.StartTiles(s'))
  }

  /** Batches one after the other, from an empty cache; between them entries may be dropped. */
  ghost predicate AreRenders(rs: seq<Render>, mode: TileMode) {
    && (forall k :: 0 <= k < |rs| ==> IsWhole(rs[k], mode))
    && (rs != [] ==> rs[0].states[0].cache.cache == map[])
    && forall k :: 0 < k < |rs| ==> KeptOnly(rs[k - 1].states[|rs[k - 1].moves|].cache, rs[k].states[0].cache)
  }

  /** The client that has read the messages of the first n batches. */
  ghost function ReadAll(rs: seq<Render>, n: nat, mode: TileMode): Client
    requires n <= |rs| && forall k :: 0 <= k < |rs| ==> IsWhole(rs[k], mode)
  {
    if n == 0 then map[]
    else
      ReadOne(rs[n - 1], ReadAll(rs, n - 1, mode), mode)
  }

  /** The client that is just shown the tiles of the first n batches. */
  ghost function ShownAll(rs: seq<Render>, n: nat, mode: TileMode): Client
    requires n <= |rs| && forall k :: 0 <= k < |rs| ==> IsWhole(rs[k], mode)
  {
    if n == 0 then map[]
    else
      ShownOne(rs[n - 1], ShownAll(rs, n - 1, mode), mode)
  }

  /** A client that showed the cache shows what is left of it when the next batch begins. */
  lemma {:induction false} NextStarts(r: Render, s: Concurrent.State, client: Client, mode: TileMode)
    requires IsWhole(r, mode) && ShowsCache(client, s, mode) && KeptOnly(s, r.states[0].cache)
    ensures ShowsCache(client, r.states[0].cache, mode)
  {
    OpenWhole(r, mode, WRAPS);
  }

  lemma {:induction false} FirstStarts(r: Render, client: Client, mode: TileMode)
    requires IsWhole(r, mode) && r.states[0].cache.cache == map[]
    ensures ShowsCache(client, r.states[0].cache, mode)
  {
    OpenWhole(r, mode, WRAPS);
  }

  /** Over every sequence of calls, whatever the interleaving in each of them and whatever is evicted
      in between: a client that keeps its tiles by the locations of the cache shows exactly the last tile
      of each location, and is in step with the cache. */
  lemma {:induction false} RendersByLocation(rs: seq<Render>, n: nat, mode: TileMode)
    requires AreRenders(rs, mode) && n <= |rs|
    ensures ReadAll(rs, n, mode) == ShownAll(rs, n, mode)
    ensures n > 0 ==> ShowsCache(ReadAll(rs, n, mode), rs[n - 1].states[|rs[n - 1].moves|].cache, mode)
  {
    if n > 0 {
      RendersByLocation(rs, n - 1, mode);
      if n == 1 {
        FirstStarts(rs[0], ReadAll(rs, n - 1, mode), mode);
      } else {
        var before := rs[n - 1 - 1];
        assert KeptOnly(before.states[|before.moves|].cache, rs[n - 1].states[0].cache);
        NextStarts(rs[n - 1], before.states[|before.moves|].cache, ReadAll(rs, n - 1, mode), mode);
      }
      OneKeepsInStep(rs[n - 1], ReadAll(rs, n - 1, mode), mode);
    }
  }
}
