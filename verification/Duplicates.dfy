/** Why no location may occur twice in a batch: with two jobs for one location, the second may make
    its delta against the tile the first is about to replace. */
module Duplicates {
  import opened Numbers
  import opened Pixels
  import opened Seqs
  import opened Tiles
  import opened DeltaFormat
  import opened DeltaMaker
  import opened ClientKeyframe
  import opened CacheProtocol
  import opened ConcurrentCache

  /** Jobs for these locations as a batch may have them: tiles of one shape, with pixels, that the
      generator takes; and at one location one tile, since both are cut from the same place. */
  ghost predicate AreFor(jobs: seq<Job>, locs: seq<TileLocation>) {
    && |jobs| == |locs| && (forall k :: 0 <= k < |jobs| ==> jobs[k].loc == locs[k])
    && (forall k :: 0 <= k < |jobs| ==> Acceptable(jobs[k].tile) && 0 < jobs[k].tile.width && jobs[k].tile.rows != [])
    && (forall i, k :: 0 <= i < k < |jobs| ==> SameShape(jobs[i].tile, jobs[k].tile))
    && forall i, k :: 0 <= i < k < |jobs| && jobs[i].loc == jobs[k].loc ==> jobs[i].tile == jobs[k].tile
  }

  ghost predicate AllDifferent(locs: seq<TileLocation>) {
    forall a, b :: 0 <= a < b < |locs| ==> locs[a] != locs[b]
  }

  /** In whatever order the steps come, every message is that of the serial order. */
  ghost predicate AlwaysSerial(locs: seq<TileLocation>) {
    forall jobs, states, steps, j ::
      AreFor(jobs, locs) && ConcurrentCache.IsRun(jobs, states, steps) && 0 <= j < |jobs| ==>
        IsSerial(jobs, states, steps, j)
  }

  ghost predicate IsSerial(jobs: seq<Job>, states: seq<State>, steps: seq<ConcurrentCache.Step>, j: nat)
    requires ConcurrentCache.IsRun(jobs, states, steps) && j < |jobs|
  {
    var last, r := states[|steps|], SerialAfter(jobs, StartTiles(states[0]), steps, |steps|);
    j < |last.phases| && (last.phases[j].Done? ==> j in r.msgs && last.phases[j].msg == r.msgs[j])
  }

  /** In whatever order the steps come and the messages are delivered, a client that was in step
      with the cache is in step with it after the batch. */
  ghost predicate AlwaysInStep(locs: seq<TileLocation>, mode: TileMode) {
    forall jobs, states, steps, client, order, bytes ::
      WholeBatch(locs, jobs, states, steps, client, order, bytes, mode) ==>
        InStepAfter(jobs, states[|steps|], client, order, bytes, mode)
  }

  /** A batch for these locations, all its messages, and a client in step before it. */
  ghost predicate WholeBatch(locs: seq<TileLocation>, jobs: seq<Job>, states: seq<State>,
                             steps: seq<ConcurrentCache.Step>, client: Client, order: seq<nat>, bytes: seq<seq<Byte>>,
                             mode: TileMode)
  {
    && AreFor(jobs, locs) && ConcurrentCache.IsRun(jobs, states, steps)
    && BatchDone(jobs, states[|steps|], order, bytes, mode) && |order| == |jobs|
    && InStepWith(client, StartTiles(states[0]), mode)
  }

  ghost predicate InStepAfter(jobs: seq<Job>, s: State, client: Client, order: seq<nat>, bytes: seq<seq<Byte>>,
                              mode: TileMode)
    requires IsOrder(order, |jobs|) && |bytes| == |jobs|
  {
    CacheFits(s) && InStepWith(Delivered(client, jobs, order, bytes, |order|), StartTiles(s), mode)
  }

  // ---------- two rows that change places ----------

  /** Two tiles of two rows, one the other with its rows swapped. */
  ghost predicate Swapped(was: Tile, now: Tile) {
    && Acceptable(was) && 0 < was.width && |was.rows| == 2 && was.rows[0] != was.rows[1]
    && now == Tile(was.width, [was.rows[1], was.rows[0]])
  }

  /** The program that swaps the two rows. */
  function Swap(): (ops: seq<Op>)
    ensures AllFit(ops)
  {
    [Copy(1, 1, 0), Copy(1, 0, 1)]
  }

  lemma {:induction false} ImageOfTwo(above: seq<Pixel>, below: seq<Pixel>, mode: TileMode)
    ensures ImageOf([above, below], mode) == [SentBytes(above, mode), SentBytes(below, mode)]
  {
    ImageAt([above, below], mode, 0);
    ImageAt([above, below], mode, 1);
  }

  lemma {:induction false} SwapIsDelta(above: seq<Pixel>, below: seq<Pixel>, mode: TileMode)
    requires above != below
    ensures IsDelta(Swap(), [above, below], [below, above], mode)
  {
    ImageOfTwo(above, below, mode);
    ImageOfTwo(below, above, mode);
    var img, ops := ImageOf([above, below], mode), Swap();
    assert ops[..1] == [Copy(1, 1, 0)] && ops[..1][..0] == [];
    assert RunOps(ops[..1], img, img) == ApplyOp(ops[0], img, RunOps([], img, img)) == [img[1], img[1]];
    assert RunOps(ops, img, img) == ApplyOp(ops[1], img, [img[1], img[1]]) == [img[1], img[0]];
  }

  /** It leads from either tile to the other. */
  lemma {:induction false} SwapsBoth(was: Tile, now: Tile, mode: TileMode)
    requires Swapped(was, now)
    ensures IsDelta(Swap(), was.rows, now.rows, mode) && IsDelta(Swap(), now.rows, was.rows, mode)
  {
    assert was.rows == [was.rows[0], was.rows[1]];
    SwapIsDelta(was.rows[0], was.rows[1], mode);
    SwapIsDelta(was.rows[1], was.rows[0], mode);
  }

  lemma {:induction false} NothingIsDelta(rows: Rows, mode: TileMode)
    ensures IsDelta([], rows, rows, mode) && DeltaBytes([]) == []
  {
  }

  /** A transparent row above a white one. */
  function DarkAbove(): Tile {
    var white := Pixel(255, 255, 255, 255);
    Tile(2, [[TRANSPARENT, TRANSPARENT], [white, white]])
  }

  lemma {:induction false} TilesSwapped(mode: TileMode) returns (was: Tile, now: Tile)
    ensures Swapped(was, now) && Show(was, mode) != Show(now, mode)
  {
    was := DarkAbove();
    now := Tile(2, [was.rows[1], was.rows[0]]);
    ImageAt(was.rows, mode, 0);
    ImageAt(now.rows, mode, 0);
    SentBytesAt(was.rows[0], mode, 0);
    SentBytesAt(now.rows[0], mode, 0);
    assert PixelBytes(ConvertPixel(was.rows[0][0], mode))[0] == 0;
    assert PixelBytes(ConvertPixel(now.rows[0][0], mode))[0] == 255;
  }

  // ---------- two jobs for one location ----------

  /** Jobs a and b of a batch are for one location. Every job of it renders the tile `now`, and the
      cache holds `was` for that location. */
  datatype Twice = Twice(locs: seq<TileLocation>, a: nat, b: nat, was: Tile, now: Tile) {
    ghost predicate Valid() {
      a < b < |locs| && locs[a] == locs[b] && Swapped(was, now)
    }

    predicate IsOne(j: nat) {
      j == a || j == b
    }
  }

  function JobsFor(locs: seq<TileLocation>, now: Tile): (jobs: seq<Job>)
    ensures |jobs| == |locs|
    ensures forall k :: 0 <= k < |jobs| ==> jobs[k] == Job(locs[k], now, false)
  {
    if locs == [] then [] else JobsFor(locs[..|locs| - 1], now) + [Job(locs[|locs| - 1], now, false)]
  }

  lemma {:induction false} JobsAreFor(x: Twice)
    requires x.Valid()
    ensures AreFor(JobsFor(x.locs, x.now), x.locs)
  {
  }

  function NoneBegun(n: nat): (phases: seq<Phase>)
    ensures |phases| == n && forall j :: 0 <= j < n ==> phases[j] == Todo
  {
    if n == 0 then [] else NoneBegun(n - 1) + [Todo]
  }

  /** The two jobs take turns at the one entry. */
  function TurnsOf(a: nat, b: nat): seq<ConcurrentCache.Step> {
    [Lookup(a), Lookup(b), Make(a), Make(b), Replace(a), Replace(b), Release(a), Release(b)]
  }

  /** Where the entry and the two jobs stand. */
  ghost function At(x: Twice, inUse: bool, tile: Tile, first: Phase, second: Phase): State
    requires x.Valid()
  {
    State([Slot(x.locs[x.a], inUse, tile)], map[x.locs[x.a] := 0], NoneBegun(|x.locs|)[x.a := first][x.b := second])
  }

  ghost function TurnStates(x: Twice): (r: seq<State>)
    requires x.Valid()
    ensures |r| == 9
  {
    var delta, sent := Some(x.was), Done(DeltaOf(x.was, x.now));
    [At(x, false, x.was, Todo, Todo),
     At(x, true, x.was, Found(0), Todo),
     At(x, true, x.was, Found(0), Found(0)),
     At(x, true, x.was, Made(0, delta), Found(0)),
     At(x, true, x.was, Made(0, delta), Made(0, delta)),
     At(x, true, x.now, Replaced(0, delta), Made(0, delta)),
     At(x, true, x.now, Replaced(0, delta), Replaced(0, delta)),
     At(x, false, x.now, sent, Replaced(0, delta)),
     At(x, false, x.now, sent, sent)]
  }

  lemma {:induction false} UpdatesCommute<T>(s: seq<T>, a: nat, b: nat, x: T, y: T, x': T, y': T)
    requires a < b < |s|
    ensures s[a := x][b := y][a := x'] == s[a := x'][b := y] && s[a := x][b := y][b := y'] == s[a := x][b := y']
    ensures s[a := x][b := y][a] == x && s[a := x][b := y][b] == y
  {
  }

  lemma {:induction false} Turn(x: Twice, i: nat)
    requires x.Valid() && i < 8
    ensures Steps(JobsFor(x.locs, x.now), TurnStates(x)[i], TurnsOf(x.a, x.b)[i], TurnStates(x)[i + 1])
  {
    var s, s' := TurnStates(x)[i], TurnStates(x)[i + 1];
    UpdatesCommute(NoneBegun(|x.locs|), x.a, x.b, s.phases[x.a], s.phases[x.b], s'.phases[x.a], s'.phases[x.b]);
    assert s.entries[0 := s'.entries[0]] == [s'.entries[0]];
  }

  lemma {:induction false} TurnsRun(x: Twice)
    requires x.Valid()
    ensures ConcurrentCache.IsRun(JobsFor(x.locs, x.now), TurnStates(x), TurnsOf(x.a, x.b))
    ensures StartTiles(TurnStates(x)[0]) == map[x.locs[x.a] := x.was]
  {
    var jobs, states, steps := JobsFor(x.locs, x.now), TurnStates(x), TurnsOf(x.a, x.b);
    assert states[0].phases == NoneBegun(|x.locs|);
    forall i | 0 <= i < |steps| ensures Steps(jobs, states[i], steps[i], states[i + 1]) {
      Turn(x, i);
    }
  }

  // ---------- the serial order ----------

  /** In the serial order the second job finds its own tile. */
  lemma {:induction false} SerialSecond(jobs: seq<Job>, cache0: map<TileLocation, Tile>, a: nat, b: nat)
    requires a < b < |jobs| && jobs[a] == jobs[b] && !jobs[b].force
    ensures var r := SerialAfter(jobs, cache0, TurnsOf(a, b), 8);
            b in r.msgs && r.msgs[b] == DeltaOf(jobs[b].tile, jobs[b].tile)
  {
    var steps := TurnsOf(a, b);
    var r1 := SerialAfter(jobs, cache0, steps, 1);
    assert r1 == SerialStep(jobs, SerialAfter(jobs, cache0, steps, 0), Lookup(a));
    var r2 := SerialAfter(jobs, cache0, steps, 2);
    assert r2 == SerialStep(jobs, r1, Lookup(b));
    NoLookups(jobs, cache0, steps, 2, 8);
  }

  lemma {:induction false} NoLookups(jobs: seq<Job>, cache0: map<TileLocation, Tile>,
      steps: seq<ConcurrentCache.Step>, m: nat, n: nat)
    requires m <= n <= |steps| && forall i :: m <= i < n ==> !steps[i].Lookup? && !steps[i].Evict?
    ensures SerialAfter(jobs, cache0, steps, n) == SerialAfter(jobs, cache0, steps, m)
  {
    if m < n {
      NoLookups(jobs, cache0, steps, m, n - 1);
    }
  }

  lemma {:induction false} TwiceNotSerial(x: Twice)
    requires x.Valid()
    ensures !AlwaysSerial(x.locs)
  {
    var jobs, states, steps := JobsFor(x.locs, x.now), TurnStates(x), TurnsOf(x.a, x.b);
    TurnsRun(x);
    SerialSecond(jobs, StartTiles(states[0]), x.a, x.b);
    assert states[8].phases[x.b] == Done(DeltaOf(x.was, x.now));
    assert x.was.rows[0] != x.now.rows[0];
    assert !IsSerial(jobs, states, steps, x.b);
    JobsAreFor(x);
  }

  lemma {:induction false} NoDuplicateJobs(jobs: seq<Job>, locs: seq<TileLocation>)
    requires AreFor(jobs, locs) && AllDifferent(locs)
    ensures NoDuplicates(jobs)
  {
  }

  /** The messages of a batch are always those of the serial order, if and only if no location
      occurs twice in it. */
  lemma {:induction false} SerialIffNoDuplicates(locs: seq<TileLocation>)
    ensures AlwaysSerial(locs) <==> AllDifferent(locs)
  {
    if a, b :| 0 <= a < b < |locs| && locs[a] == locs[b] {
      var was, now := TilesSwapped(RGBA);
      TwiceNotSerial(Twice(locs, a, b, was, now));
    } else {
      forall jobs, states, steps, j |
        AreFor(jobs, locs) && ConcurrentCache.IsRun(jobs, states, steps) && 0 <= j < |jobs|
        ensures IsSerial(jobs, states, steps, j)
      {
        NoDuplicateJobs(jobs, locs);
        BatchIsSerial(jobs, states, steps, |steps|);
      }
    }
  }

  // ---------- the asserts ----------

  /** In whatever order the steps come, no assert fires. */
  ghost predicate AlwaysAsserts(locs: seq<TileLocation>) {
    forall jobs, states, steps, n ::
      AreFor(jobs, locs) && ConcurrentCache.IsRun(jobs, states, steps) && 0 <= n < |steps| ==>
        Enabled(jobs, states[n], steps[n]) && Asserts(jobs, states[n], steps[n])
  }

  /** The second look-up finds the entry in use. */
  lemma {:induction false} TwiceInUse(x: Twice)
    requires x.Valid()
    ensures !AlwaysAsserts(x.locs)
  {
    var jobs, states, steps := JobsFor(x.locs, x.now), TurnStates(x), TurnsOf(x.a, x.b);
    TurnsRun(x);
    JobsAreFor(x);
    assert Steps(jobs, states[1], steps[1], states[1 + 1]);
    assert !Asserts(jobs, states[1], steps[1]);
  }

  /** The asserts never fire if and only if no location occurs twice. */
  lemma {:induction false} AssertsIffNoDuplicates(locs: seq<TileLocation>)
    ensures AlwaysAsserts(locs) <==> AllDifferent(locs)
  {
    if a, b :| 0 <= a < b < |locs| && locs[a] == locs[b] {
      var was, now := TilesSwapped(RGBA);
      TwiceInUse(Twice(locs, a, b, was, now));
    } else {
      forall jobs, states, steps, n |
        AreFor(jobs, locs) && ConcurrentCache.IsRun(jobs, states, steps) && 0 <= n < |steps|
        ensures Enabled(jobs, states[n], steps[n]) && Asserts(jobs, states[n], steps[n])
      {
        NoDuplicateJobs(jobs, locs);
        BatchIsSerial(jobs, states, steps, n);
      }
    }
  }

  // ---------- all jobs of the batch ----------

  /** The cache holds nothing but the new tile, and that of the given location. */
  ghost predicate HoldsOnly(s: State, tile: Tile, loc: TileLocation) {
    CacheFits(s) && loc in s.cache && forall l :: l in s.cache ==> s.entries[s.cache[l]].tile == tile
  }

  /** A job that finds its tile, from its look-up to the end. */
  lemma {:induction false} FinishHit(jobs: seq<Job>, states: seq<State>, steps: seq<ConcurrentCache.Step>, j: nat)
    returns (states': seq<State>, steps': seq<ConcurrentCache.Step>)
    requires ConcurrentCache.IsRun(jobs, states, steps) && j < |jobs| == |states[|steps|].phases|
    requires !jobs[j].force && states[|steps|].phases[j].Todo? && HoldsOnly(states[|steps|], jobs[j].tile, jobs[j].loc)
    ensures ConcurrentCache.IsRun(jobs, states', steps') && states'[0] == states[0]
    ensures var s, s' := states[|steps|], states'[|steps'|];
            && s'.phases == s.phases[j := Done(DeltaOf(jobs[j].tile, jobs[j].tile))] && s'.cache == s.cache
            && |s'.entries| == |s.entries|
            && forall i :: 0 <= i < |s.entries| ==>
                 s'.entries[i].loc == s.entries[i].loc && s'.entries[i].tile == s.entries[i].tile
  {
    var s, now := states[|steps|], jobs[j].tile;
    var id := s.cache[jobs[j].loc];
    var used := s.entries[id := s.entries[id].(inUse := true)];
    var s1 := State(used, s.cache, s.phases[j := Found(id)]);
    var s2 := State(used, s.cache, s.phases[j := Made(id, Some(now))]);
    var s3 := State(used, s.cache, s.phases[j := Replaced(id, Some(now))]);
    var s4 := State(s.entries[id := s.entries[id].(inUse := false)], s.cache, s.phases[j := Done(DeltaOf(now, now))]);
    UpdateTwice(s.phases, j, Found(id), Made(id, Some(now)));
    UpdateTwice(s.phases, j, Made(id, Some(now)), Replaced(id, Some(now)));
    UpdateTwice(s.phases, j, Replaced(id, Some(now)), Done(DeltaOf(now, now)));
    UpdateTwice(s.entries, id, used[id], s4.entries[id]);
    SameUpdate(used, id, used[id]);
    RunSnoc(jobs, states, steps, Lookup(j), s1);
    states', steps' := states + [s1], steps + [Lookup(j)];
    RunSnoc(jobs, states', steps', Make(j), s2);
    states', steps' := states' + [s2], steps' + [Make(j)];
    RunSnoc(jobs, states', steps', Replace(j), s3);
    states', steps' := states' + [s3], steps' + [Replace(j)];
    RunSnoc(jobs, states', steps', Release(j), s4);
    states', steps' := states' + [s4], steps' + [Release(j)];
  }

  /** A job that does not find its tile. */
  lemma {:induction false} FinishMiss(jobs: seq<Job>, states: seq<State>, steps: seq<ConcurrentCache.Step>, j: nat)
    returns (states': seq<State>, steps': seq<ConcurrentCache.Step>)
    requires ConcurrentCache.IsRun(jobs, states, steps) && j < |jobs| == |states[|steps|].phases|
    requires states[|steps|].phases[j].Todo? && jobs[j].loc !in states[|steps|].cache
    ensures ConcurrentCache.IsRun(jobs, states', steps') && states'[0] == states[0]
    ensures var s, s' := states[|steps|], states'[|steps'|];
            && s'.phases == s.phases[j := Done(KeyframeOf(jobs[j].tile))]
            && s'.cache == s.cache[jobs[j].loc := |s.entries|]
            && s'.entries == s.entries + [Slot(jobs[j].loc, false, jobs[j].tile)]
  {
    var s, now := states[|steps|], jobs[j].tile;
    var id := |s.entries|;
    var s1 := State(s.entries + [Slot(jobs[j].loc, false, now)], s.cache[jobs[j].loc := id],
                    s.phases[j := Packing(id)]);
    var s2 := s1.(phases := s.phases[j := Done(KeyframeOf(now))]);
    UpdateTwice(s.phases, j, Packing(id), Done(KeyframeOf(now)));
    RunSnoc(jobs, states, steps, Lookup(j), s1);
    states', steps' := states + [s1], steps + [Lookup(j)];
    RunSnoc(jobs, states', steps', Pack(j), s2);
    states', steps' := states' + [s2], steps' + [Pack(j)];
  }

  /** The message of one of the two jobs, or of a job that came after them. */
  ghost predicate Finished(x: Twice, p: Phase, one: bool, same: bool) {
    p.Done? &&
    if one then p.msg == DeltaOf(x.was, x.now)
    else p.msg == DeltaOf(x.now, x.now) || (!same && p.msg == KeyframeOf(x.now))
  }

  /** The two jobs and the first n of the others are done. */
  ghost predicate Finishing(x: Twice, s: State, n: nat)
    requires x.Valid()
  {
    && |s.phases| == |x.locs| && HoldsOnly(s, x.now, x.locs[x.a])
    && forall j :: 0 <= j < |x.locs| ==>
         if j < n || x.IsOne(j) then Finished(x, s.phases[j], x.IsOne(j), x.locs[j] == x.locs[x.a])
         else s.phases[j].Todo?
  }

  lemma {:induction false} FinishJob(x: Twice, states: seq<State>, steps: seq<ConcurrentCache.Step>, n: nat)
    returns (states': seq<State>, steps': seq<ConcurrentCache.Step>)
    requires x.Valid() && n < |x.locs| && !x.IsOne(n)
    requires ConcurrentCache.IsRun(JobsFor(x.locs, x.now), states, steps) && Finishing(x, states[|steps|], n)
    ensures ConcurrentCache.IsRun(JobsFor(x.locs, x.now), states', steps') && states'[0] == states[0]
    ensures Finishing(x, states'[|steps'|], n + 1)
  {
    var jobs := JobsFor(x.locs, x.now);
    if x.locs[n] in states[|steps|].cache {
      states', steps' := FinishHit(jobs, states, steps, n);
    } else {
      states', steps' := FinishMiss(jobs, states, steps, n);
    }
  }

  lemma {:induction false} FinishAll(x: Twice, n: nat) returns (states: seq<State>, steps: seq<ConcurrentCache.Step>)
    requires x.Valid() && n <= |x.locs|
    ensures ConcurrentCache.IsRun(JobsFor(x.locs, x.now), states, steps) && Finishing(x, states[|steps|], n)
    ensures StartTiles(states[0]) == map[x.locs[x.a] := x.was]
  {
    if n == 0 {
      TurnsRun(x);
      states, steps := TurnStates(x), TurnsOf(x.a, x.b);
    } else {
      states, steps := FinishAll(x, n - 1);
      if !x.IsOne(n - 1) {
        states, steps := FinishJob(x, states, steps, n - 1);
      }
    }
  }

  // ---------- what the client makes of it ----------

  /** The bytes of the messages that occur here. */
  ghost function BytesOf(msg: Message, mode: TileMode): seq<Byte> {
    match msg
    case DeltaOf(base, tile) => [DELTA] + DeltaBytes(if base == tile then [] else Swap())
    case KeyframeOf(tile) => [KEYFRAME] + KeyframeBytes(tile.rows, mode)
  }

  ghost function AllBytes(phases: seq<Phase>, mode: TileMode): (r: seq<seq<Byte>>)
    ensures |r| == |phases|
  {
    if phases == [] then []
    else
      var p := phases[|phases| - 1];
      AllBytes(phases[..|phases| - 1], mode) + [if p.Done? then BytesOf(p.msg, mode) else []]
  }

  lemma {:induction false} BytesAt(phases: seq<Phase>, mode: TileMode, j: nat)
    requires j < |phases| && phases[j].Done?
    ensures AllBytes(phases, mode)[j] == BytesOf(phases[j].msg, mode)
  {
    if j < |phases| - 1 {
      BytesAt(phases[..|phases| - 1], mode, j);
    }
  }

  function CountUp(n: nat): (order: seq<nat>)
    ensures |order| == n && forall i :: 0 <= i < n ==> order[i] == i
  {
    if n == 0 then [] else CountUp(n - 1) + [n - 1]
  }

  lemma {:induction false} FinishedSent(x: Twice, job: Job, p: Phase, one: bool, same: bool, bytes: seq<Byte>,
                                        mode: TileMode)
    requires x.Valid() && Finished(x, p, one, same) && job.tile == x.now && bytes == BytesOf(p.msg, mode)
    ensures JobDone(job, p, true, bytes, mode)
  {
    SwapsBoth(x.was, x.now, mode);
    NothingIsDelta(x.now.rows, mode);
    assert x.was.rows[0] != x.now.rows[0];
  }

  /** The jobs in their own order, and the bytes of their messages. */
  ghost predicate InOrder(x: Twice, jobs: seq<Job>, s: State, order: seq<nat>, bytes: seq<seq<Byte>>, mode: TileMode)
    requires x.Valid()
  {
    && Finishing(x, s, |x.locs|) && |jobs| == |order| == |bytes| == |x.locs|
    && forall j :: 0 <= j < |order| ==>
         && order[j] == j && jobs[j] == Job(x.locs[j], x.now, false)
         && s.phases[j].Done? && bytes[j] == BytesOf(s.phases[j].msg, mode)
  }

  lemma {:induction false} TwiceInOrder(x: Twice, s: State, mode: TileMode)
    requires x.Valid() && Finishing(x, s, |x.locs|)
    ensures InOrder(x, JobsFor(x.locs, x.now), s, CountUp(|x.locs|), AllBytes(s.phases, mode), mode)
  {
    forall j | 0 <= j < |x.locs|
      ensures s.phases[j].Done? && AllBytes(s.phases, mode)[j] == BytesOf(s.phases[j].msg, mode)
    {
      BytesAt(s.phases, mode, j);
    }
  }

  lemma {:induction false} FinishedBatch(x: Twice, jobs: seq<Job>, s: State, order: seq<nat>, bytes: seq<seq<Byte>>,
                                         mode: TileMode)
    requires x.Valid() && InOrder(x, jobs, s, order, bytes, mode)
    ensures BatchDone(jobs, s, order, bytes, mode)
  {
    forall j | 0 <= j < |jobs| ensures JobDone(jobs[j], s.phases[j], j in order, bytes[j], mode) {
      assert j in order by {
        assert order[j] == j;
      }
      FinishedSent(x, jobs[j], s.phases[j], x.IsOne(j), x.locs[j] == x.locs[x.a], bytes[j], mode);
    }
  }

  /** The tile shown at the location when n messages have been delivered. */
  function ShownAfter(x: Twice, n: nat): Tile {
    if x.a < n <= x.b then x.now else x.was
  }

  lemma {:induction false} OneDelivered(x: Twice, client: Client, loc: TileLocation, p: Phase, one: bool, tile: Tile,
                                        next: Tile, mode: TileMode)
    requires x.Valid() && Finished(x, p, one, true) && loc in client && client[loc] == Show(tile, mode)
    requires if one then (tile == x.was && next == x.now) || (tile == x.now && next == x.was) else next == tile
    ensures var after := ClientApply(client, loc, x.now.width, |x.now.rows|, BytesOf(p.msg, mode));
            loc in after && after[loc] == Show(next, mode)
  {
    assert x.was.rows[0] != x.now.rows[0];
    if one {
      SwapsBoth(x.was, x.now, mode);
      DeltaShows(client, loc, tile, next, Swap(), mode);
    } else {
      NothingIsDelta(tile.rows, mode);
      DeltaShows(client, loc, tile, tile, [], mode);
    }
  }

  lemma {:induction false} OtherLocation(client: Client, loc: TileLocation, other: TileLocation, width: nat,
                                         height: nat, msg: seq<Byte>, shown: Shown)
    requires loc in client && client[loc] == shown && loc != other
    ensures var after := ClientApply(client, other, width, height, msg);
            loc in after && after[loc] == shown
  {
  }

  lemma {:induction false} NextDelivered(x: Twice, client: Client, jobs: seq<Job>, s: State, order: seq<nat>,
                                         bytes: seq<seq<Byte>>, mode: TileMode, j: nat)
    requires x.Valid() && InOrder(x, jobs, s, order, bytes, mode) && j < |order|
    requires x.locs[x.a] in client && client[x.locs[x.a]] == Show(ShownAfter(x, j), mode)
    ensures var after := ClientApply(client, jobs[j].loc, jobs[j].tile.width, |jobs[j].tile.rows|, bytes[j]);
            x.locs[x.a] in after && after[x.locs[x.a]] == Show(ShownAfter(x, j + 1), mode)
  {
    assert order[j] == j;
    if x.locs[j] == x.locs[x.a] {
      assert Finished(x, s.phases[j], x.IsOne(j), x.locs[j] == x.locs[x.a]);
      OneDelivered(x, client, x.locs[j], s.phases[j], x.IsOne(j), ShownAfter(x, j), ShownAfter(x, j + 1), mode);
    } else {
      OtherLocation(client, x.locs[x.a], x.locs[j], jobs[j].tile.width, |jobs[j].tile.rows|, bytes[j],
        Show(ShownAfter(x, j), mode));
    }
  }

  lemma {:induction false} DeliveredInTurn(client: Client, jobs: seq<Job>, order: seq<nat>, bytes: seq<seq<Byte>>,
                                           j: nat)
    requires j < |order| == |bytes| == |jobs| && forall i :: 0 <= i < |order| ==> order[i] == i
    ensures Delivered(client, jobs, order, bytes, j + 1)
         == ClientApply(Delivered(client, jobs, order, bytes, j), jobs[j].loc, jobs[j].tile.width,
                        |jobs[j].tile.rows|, bytes[j])
  {
  }

  /** The second of the two deltas swaps the rows back. */
  lemma {:induction false} SwappedBack(x: Twice, client: Client, jobs: seq<Job>, s: State, order: seq<nat>,
                                       bytes: seq<seq<Byte>>, mode: TileMode, n: nat)
    requires x.Valid() && InOrder(x, jobs, s, order, bytes, mode) && n <= |order|
    requires x.locs[x.a] in client && client[x.locs[x.a]] == Show(x.was, mode)
    ensures var after := Delivered(client, jobs, order, bytes, n);
            x.locs[x.a] in after && after[x.locs[x.a]] == Show(ShownAfter(x, n), mode)
  {
    if n > 0 {
      SwappedBack(x, client, jobs, s, order, bytes, mode, n - 1);
      DeliveredInTurn(client, jobs, order, bytes, n - 1);
      NextDelivered(x, Delivered(client, jobs, order, bytes, n - 1), jobs, s, order, bytes, mode, n - 1);
    }
  }

  lemma {:induction false} OutOfStep(x: Twice, client: Client, jobs: seq<Job>, s: State, order: seq<nat>,
                                     bytes: seq<seq<Byte>>, mode: TileMode)
    requires x.Valid() && InOrder(x, jobs, s, order, bytes, mode) && IsOrder(order, |jobs|)
    requires x.locs[x.a] in client && client[x.locs[x.a]] == Show(x.was, mode) && Show(x.was, mode) != Show(x.now, mode)
    ensures !InStepAfter(jobs, s, client, order, bytes, mode)
  {
    SwappedBack(x, client, jobs, s, order, bytes, mode, |order|);
    assert StartTiles(s)[x.locs[x.a]] == x.now;
  }

  lemma {:induction false} NotInStep(locs: seq<TileLocation>, jobs: seq<Job>, states: seq<State>,
      steps: seq<ConcurrentCache.Step>, client: Client, order: seq<nat>, bytes: seq<seq<Byte>>, mode: TileMode)
    requires WholeBatch(locs, jobs, states, steps, client, order, bytes, mode)
    requires !InStepAfter(jobs, states[|steps|], client, order, bytes, mode)
    ensures !AlwaysInStep(locs, mode)
  {
  }

  lemma {:induction false} TwiceOutOfStep(x: Twice, mode: TileMode)
    requires x.Valid() && Show(x.was, mode) != Show(x.now, mode)
    ensures !AlwaysInStep(x.locs, mode)
  {
    var states, steps := FinishAll(x, |x.locs|);
    var s, client: Client := states[|steps|], map[x.locs[x.a] := Show(x.was, mode)];
    var jobs, order, bytes := JobsFor(x.locs, x.now), CountUp(|x.locs|), AllBytes(s.phases, mode);
    JobsAreFor(x);
    TwiceInOrder(x, s, mode);
    FinishedBatch(x, jobs, s, order, bytes, mode);
    OutOfStep(x, client, jobs, s, order, bytes, mode);
    NotInStep(x.locs, jobs, states, steps, client, order, bytes, mode);
  }

  /** A client in step with the cache always stays in step over a batch, if and only if no location
      occurs twice in it: else two deltas against one tile may be made and both applied. */
  lemma {:induction false} InStepIffNoDuplicates(locs: seq<TileLocation>, mode: TileMode)
    ensures AlwaysInStep(locs, mode) <==> AllDifferent(locs)
  {
    if a, b :| 0 <= a < b < |locs| && locs[a] == locs[b] {
      var was, now := TilesSwapped(mode);
      TwiceOutOfStep(Twice(locs, a, b, was, now), mode);
    } else {
      forall jobs, states, steps, client, order, bytes |
        WholeBatch(locs, jobs, states, steps, client, order, bytes, mode)
        ensures InStepAfter(jobs, states[|steps|], client, order, bytes, mode)
      {
        NoDuplicateJobs(jobs, locs);
        BatchKeepsInStep(jobs, states, steps, client, order, bytes, mode);
      }
    }
  }
}
