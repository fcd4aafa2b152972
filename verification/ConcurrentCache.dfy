/** The jobs of one batch of tiles working on the shared cache at the same time. What a job does
    under the lock is one step; what it does outside is cut into steps too, and steps of other
    jobs and evictions come between them in any order. */
module ConcurrentCache {
  import opened Numbers
  import opened Pixels
  import opened Seqs
  import opened Tiles
  import opened DeltaMaker
  import opened ClientKeyframe
  import opened CacheProtocol

  /** What one job is to render. */
  datatype Job = Job(loc: TileLocation, tile: Tile, force: bool)

  /** A delta against a tile, or a keyframe. */
  datatype Message = DeltaOf(base: Tile, tile: Tile) | KeyframeOf(tile: Tile)

  /** An entry as it lies in memory. Threads that found it keep it alive after it has left the cache. */
  datatype Slot = Slot(loc: TileLocation, inUse: bool, tile: Tile)

  /** How far `createDelta` and the packing after it have come. */
  datatype Phase =
    | Todo
    | Found(id: nat)                                  // in use by this job
    | Made(id: nat, delta: Option<Tile>)              // the delta is made, if any
    | Replaced(id: nat, delta: Option<Tile>)
    | Packing(id: nat)                                // no delta: the rows of the entry are packed
    | Done(msg: Message)

  datatype State = State(entries: seq<Slot>, cache: map<TileLocation, nat>, phases: seq<Phase>)

  datatype Step =
    | Lookup(j: nat) | Make(j: nat) | Replace(j: nat) | Release(j: nat) | Pack(j: nat)
    | Evict(gone: set<TileLocation>)

  // ---------- the steps ----------

  predicate Enabled(jobs: seq<Job>, s: State, step: Step) {
    |s.phases| == |jobs| &&
    match step
    case Lookup(j) => j < |jobs| && s.phases[j].Todo? && (jobs[j].loc in s.cache ==> s.cache[jobs[j].loc] < |s.entries|)
    case Make(j) => j < |jobs| && s.phases[j].Found? && s.phases[j].id < |s.entries|
    case Replace(j) => j < |jobs| && s.phases[j].Made? && s.phases[j].id < |s.entries|
    case Release(j) => j < |jobs| && s.phases[j].Replaced? && s.phases[j].id < |s.entries|
    case Pack(j) => j < |jobs| && s.phases[j].Packing? && s.phases[j].id < |s.entries|
    case Evict(gone) => true
  }

  /** Whether a delta can be made, and against what. */
  function DeltaBase(held: Tile, job: Job): Option<Tile> {
    if !job.force && SameShape(held, job.tile) then Some(held) else None
  }

  function Next(jobs: seq<Job>, s: State, step: Step): State
    requires Enabled(jobs, s, step)
  {
    match step
    case Lookup(j) =>
      var loc := jobs[j].loc;
      if loc !in s.cache then
        var id := |s.entries|;
        State(s.entries + [Slot(loc, false, jobs[j].tile)], s.cache[loc := id], s.phases[j := Packing(id)])
      else
        var id := s.cache[loc];
        s.(entries := s.entries[id := s.entries[id].(inUse := true)], phases := s.phases[j := Found(id)])
    case Make(j) =>
      var id := s.phases[j].id;
      s.(phases := s.phases[j := Made(id, DeltaBase(s.entries[id].tile, jobs[j]))])
    case Replace(j) =>
      var id := s.phases[j].id;
      State(s.entries[id := s.entries[id].(tile := jobs[j].tile)], s.cache,
            s.phases[j := Replaced(id, s.phases[j].delta)])
    case Release(j) =>
      var id := s.phases[j].id;
      var next := match s.phases[j].delta
                  case Some(base) => Done(DeltaOf(base, jobs[j].tile))
                  case None => Packing(id);
      s.(entries := s.entries[id := s.entries[id].(inUse := false)], phases := s.phases[j := next])
    case Pack(j) =>
      s.(phases := s.phases[j := Done(KeyframeOf(s.entries[s.phases[j].id].tile))])
    case Evict(gone) => s.(cache := s.cache - gone)
  }

  /** The asserts of `use`, `unuse` and `replaceAndFree`. */
  predicate Asserts(jobs: seq<Job>, s: State, step: Step)
    requires Enabled(jobs, s, step)
  {
    match step
    case Lookup(j) => jobs[j].loc in s.cache ==> !s.entries[s.cache[jobs[j].loc]].inUse
    case Release(j) => s.entries[s.phases[j].id].inUse
    case Replace(j) => s.entries[s.phases[j].id].loc == jobs[j].loc
    case _ => true
  }

  /** No two jobs of a batch are for the same location. */
  ghost predicate NoDuplicates(jobs: seq<Job>) {
    forall i, j :: 0 <= i < j < |jobs| ==> jobs[i].loc != jobs[j].loc
  }

  ghost predicate CacheFits(s: State) {
    forall l :: l in s.cache ==> s.cache[l] < |s.entries| && s.entries[s.cache[l]].loc == l
  }

  /** Any cache, with no job begun. */
  ghost predicate Start(jobs: seq<Job>, s: State) {
    |s.phases| == |jobs| && CacheFits(s) &&
    (forall j :: 0 <= j < |jobs| ==> s.phases[j].Todo?) &&
    forall i :: 0 <= i < |s.entries| ==> !s.entries[i].inUse
  }

  predicate Steps(jobs: seq<Job>, s: State, step: Step, s': State) {
    Enabled(jobs, s, step) && s' == Next(jobs, s, step)
  }

  ghost predicate IsRun(jobs: seq<Job>, states: seq<State>, steps: seq<Step>) {
    && |states| == |steps| + 1 && Start(jobs, states[0])
    && forall i :: 0 <= i < |steps| ==> Steps(jobs, states[i], steps[i], states[i + 1])
  }

  lemma {:induction false} RunSnoc(jobs: seq<Job>, states: seq<State>, steps: seq<Step>, step: Step, s: State)
    requires IsRun(jobs, states, steps) && Steps(jobs, states[|steps|], step, s)
    ensures IsRun(jobs, states + [s], steps + [step])
  {
    var states', steps' := states + [s], steps + [step];
    forall i | 0 <= i < |steps'| ensures Steps(jobs, states'[i], steps'[i], states'[i + 1]) {
      if i < |steps| {
        assert Steps(jobs, states[i], steps[i], states[i + 1]);
      }
    }
  }

  // ---------- the serial order ----------

  /** The cache, and the message of every job, when each job is done at once. */
  datatype Serial = Serial(cache: map<TileLocation, Tile>, msgs: map<nat, Message>)

  function MessageFor(held: Option<Tile>, job: Job): Message {
    if held.Some? && DeltaBase(held.value, job).Some? then DeltaOf(held.value, job.tile) else KeyframeOf(job.tile)
  }

  /** A job is done when it looks its tile up. */
  function SerialStep(jobs: seq<Job>, r: Serial, step: Step): Serial {
    match step
    case Lookup(j) =>
      if j < |jobs| then
        Serial(r.cache[jobs[j].loc := jobs[j].tile], r.msgs[j := MessageFor(Find(r.cache, jobs[j].loc), jobs[j])])
      else r
    case Evict(gone) => r.(cache := r.cache - gone)
    case _ => r
  }

  function SerialAfter(jobs: seq<Job>, cache0: map<TileLocation, Tile>, steps: seq<Step>, n: nat): Serial
    requires n <= |steps|
  {
    if n == 0 then Serial(cache0, map[]) else SerialStep(jobs, SerialAfter(jobs, cache0, steps, n - 1), steps[n - 1])
  }

  function StartTiles(s: State): map<TileLocation, Tile>
    requires CacheFits(s)
  {
    map l | l in s.cache :: s.entries[s.cache[l]].tile
  }

  // ---------- the simulation ----------

  predicate Holds(p: Phase) {
    p.Found? || p.Made? || p.Replaced?
  }

  predicate HasEntry(p: Phase) {
    Holds(p) || p.Packing?
  }

  /** Where job j stands, given the message it is to send. */
  ghost predicate JobFits(job: Job, p: Phase, s: State, r: Serial, j: nat)
    requires CacheFits(s) && r.cache.Keys == s.cache.Keys
  {
    && (HasEntry(p) ==> p.id < |s.entries| && s.entries[p.id].loc == job.loc)
    && (HasEntry(p) && job.loc in s.cache ==> s.cache[job.loc] == p.id)
    && (Holds(p) ==> s.entries[p.id].inUse)
    && (j in r.msgs <==> !p.Todo?)
    && (!p.Todo? && job.loc in s.cache ==> r.cache[job.loc] == job.tile)
    && match p
       case Todo => job.loc in s.cache ==> r.cache[job.loc] == s.entries[s.cache[job.loc]].tile
       case Found(id) => r.msgs[j] == MessageFor(Some(s.entries[id].tile), job)
       case Made(id, delta) => r.msgs[j] == if delta.Some? then DeltaOf(delta.value, job.tile) else KeyframeOf(job.tile)
       case Replaced(id, delta) =>
         && r.msgs[j] == (if delta.Some? then DeltaOf(delta.value, job.tile) else KeyframeOf(job.tile))
         && s.entries[id].tile == job.tile
       case Packing(id) => r.msgs[j] == KeyframeOf(job.tile) && s.entries[id].tile == job.tile
       case Done(msg) => r.msgs[j] == msg && (job.loc in s.cache ==> s.entries[s.cache[job.loc]].tile == job.tile)
  }

  /** An entry is in use only by the one job for its location. */
  ghost predicate UsedByJob(jobs: seq<Job>, s: State, i: nat)
    requires i < |s.entries| && |s.phases| == |jobs|
  {
    s.entries[i].inUse ==>
      exists j :: 0 <= j < |jobs| && jobs[j].loc == s.entries[i].loc && Holds(s.phases[j]) && s.phases[j].id == i
  }

  ghost predicate Sim(jobs: seq<Job>, s: State, r: Serial) {
    && |s.phases| == |jobs| && CacheFits(s) && r.cache.Keys == s.cache.Keys
    && (forall j :: 0 <= j < |jobs| ==> JobFits(jobs[j], s.phases[j], s, r, j))
    && (forall i :: 0 <= i < |s.entries| ==> UsedByJob(jobs, s, i))
    && forall l :: l in s.cache && (forall j :: 0 <= j < |jobs| ==> jobs[j].loc != l)
                   ==> r.cache[l] == s.entries[s.cache[l]].tile
  }

  lemma {:induction false} StartSim(jobs: seq<Job>, s: State)
    requires Start(jobs, s)
    ensures Sim(jobs, s, Serial(StartTiles(s), map[]))
  {
  }

  lemma {:induction false} AssertsHold(jobs: seq<Job>, s: State, r: Serial, step: Step)
    requires NoDuplicates(jobs) && Sim(jobs, s, r) && Enabled(jobs, s, step)
    ensures Asserts(jobs, s, step)
  {
    match step
    case Lookup(j) =>
      assert JobFits(jobs[j], s.phases[j], s, r, j);
      if jobs[j].loc in s.cache {
        assert UsedByJob(jobs, s, s.cache[jobs[j].loc]);
      }
    case Release(j) => assert JobFits(jobs[j], s.phases[j], s, r, j);
    case Replace(j) => assert JobFits(jobs[j], s.phases[j], s, r, j);
    case _ =>
  }

  /** Another job's turn: its own entry apart, nothing this job knows has changed. */
  lemma {:induction false} OthersFit(jobs: seq<Job>, s: State, r: Serial, s': State, r': Serial, j: nat, k: nat)
    requires j < |jobs| && k < |jobs| && jobs[j].loc != jobs[k].loc && |s.phases| == |s'.phases| == |jobs|
    requires CacheFits(s) && CacheFits(s') && r.cache.Keys == s.cache.Keys && r'.cache.Keys == s'.cache.Keys
    requires JobFits(jobs[k], s.phases[k], s, r, k)
    requires s'.phases[k] == s.phases[k] && |s.entries| <= |s'.entries|
    requires forall i :: 0 <= i < |s.entries| && s.entries[i].loc != jobs[j].loc ==> s'.entries[i] == s.entries[i]
    requires forall l :: l != jobs[j].loc ==> (l in s'.cache <==> l in s.cache)
    requires forall l :: l in s.cache && l != jobs[j].loc ==> s'.cache[l] == s.cache[l] && r'.cache[l] == r.cache[l]
    requires forall m :: m != j ==> (m in r'.msgs <==> m in r.msgs)
    requires forall m :: m in r.msgs && m != j ==> r'.msgs[m] == r.msgs[m]
    ensures JobFits(jobs[k], s'.phases[k], s', r', k)
  {
  }

  /** What one job's turn may touch. */
  ghost predicate TurnOf(jobs: seq<Job>, s: State, r: Serial, s': State, r': Serial, j: nat) {
    && j < |jobs| && |s.phases| == |s'.phases| == |jobs| && |s.entries| <= |s'.entries|
    && (forall k :: 0 <= k < |jobs| && k != j ==> s'.phases[k] == s.phases[k])
    && (forall i :: 0 <= i < |s.entries| ==> s'.entries[i].loc == s.entries[i].loc)
    && (forall i :: 0 <= i < |s.entries| && s.entries[i].loc != jobs[j].loc ==> s'.entries[i] == s.entries[i])
    && (forall l :: l != jobs[j].loc ==> (l in s'.cache <==> l in s.cache))
    && (forall l :: l in s.cache && l != jobs[j].loc ==> s'.cache[l] == s.cache[l] && l in r.cache && l in r'.cache
                                                         && r'.cache[l] == r.cache[l])
    && (forall m :: m != j ==> (m in r'.msgs <==> m in r.msgs))
    && (forall m :: m in r.msgs && m != j ==> m in r'.msgs && r'.msgs[m] == r.msgs[m])
  }

  lemma {:induction false} TurnKeepsSim(jobs: seq<Job>, s: State, r: Serial, s': State, r': Serial, j: nat)
    requires NoDuplicates(jobs) && Sim(jobs, s, r) && TurnOf(jobs, s, r, s', r', j)
    requires CacheFits(s') && r'.cache.Keys == s'.cache.Keys
    requires JobFits(jobs[j], s'.phases[j], s', r', j)
    requires forall i :: 0 <= i < |s'.entries| && (i < |s.entries| ==> s.entries[i].loc == jobs[j].loc)
                         ==> UsedByJob(jobs, s', i)
    ensures Sim(jobs, s', r')
  {
    forall k | 0 <= k < |jobs| ensures JobFits(jobs[k], s'.phases[k], s', r', k) {
      if k != j {
        assert jobs[j].loc != jobs[k].loc;
        OthersFit(jobs, s, r, s', r', j, k);
      }
    }
    forall i | 0 <= i < |s'.entries| ensures UsedByJob(jobs, s', i) {
      if i < |s.entries| && s.entries[i].loc != jobs[j].loc {
        assert UsedByJob(jobs, s, i);
        if s'.entries[i].inUse {
          var k :| 0 <= k < |jobs| && jobs[k].loc == s.entries[i].loc && Holds(s.phases[k]) && s.phases[k].id == i;
          assert Holds(s'.phases[k]);
        }
      }
    }
  }

  /** The entries of a job's location that are in use are those the job holds. */
  lemma {:induction false} InUseIsHeld(jobs: seq<Job>, s: State, i: nat, j: nat)
    requires NoDuplicates(jobs) && |s.phases| == |jobs| && j < |jobs|
    requires i < |s.entries| && s.entries[i].loc == jobs[j].loc && UsedByJob(jobs, s, i)
    ensures s.entries[i].inUse ==> Holds(s.phases[j]) && s.phases[j].id == i
  {
    if s.entries[i].inUse {
      var k :| 0 <= k < |jobs| && jobs[k].loc == s.entries[i].loc && Holds(s.phases[k]) && s.phases[k].id == i;
      assert k == j;
    }
  }

  lemma {:induction false} HitFits(jobs: seq<Job>, s: State, r: Serial, j: nat)
    requires Sim(jobs, s, r) && Enabled(jobs, s, Lookup(j)) && jobs[j].loc in s.cache
    ensures var s', r' := Next(jobs, s, Lookup(j)), SerialStep(jobs, r, Lookup(j));
            && CacheFits(s') && r'.cache.Keys == s'.cache.Keys && TurnOf(jobs, s, r, s', r', j)
            && JobFits(jobs[j], s'.phases[j], s', r', j)
  {
    assert JobFits(jobs[j], s.phases[j], s, r, j);
  }

  lemma {:induction false} MissFits(jobs: seq<Job>, s: State, r: Serial, j: nat)
    requires Sim(jobs, s, r) && Enabled(jobs, s, Lookup(j)) && jobs[j].loc !in s.cache
    ensures var s', r' := Next(jobs, s, Lookup(j)), SerialStep(jobs, r, Lookup(j));
            && CacheFits(s') && r'.cache.Keys == s'.cache.Keys && TurnOf(jobs, s, r, s', r', j)
            && JobFits(jobs[j], s'.phases[j], s', r', j)
  {
    assert JobFits(jobs[j], s.phases[j], s, r, j);
  }

  lemma {:induction false} LookupUses(jobs: seq<Job>, s: State, j: nat, i: nat)
    requires NoDuplicates(jobs) && Enabled(jobs, s, Lookup(j)) && CacheFits(s)
    requires i < |Next(jobs, s, Lookup(j)).entries|
    requires i < |s.entries| ==> s.entries[i].loc == jobs[j].loc && UsedByJob(jobs, s, i)
    ensures UsedByJob(jobs, Next(jobs, s, Lookup(j)), i)
  {
    var s' := Next(jobs, s, Lookup(j));
    if i < |s.entries| {
      InUseIsHeld(jobs, s, i, j);
      assert s'.entries[i].inUse ==> jobs[j].loc == s'.entries[i].loc && Holds(s'.phases[j]) && s'.phases[j].id == i;
    }
  }

  lemma {:induction false} LookupKeepsSim(jobs: seq<Job>, s: State, r: Serial, j: nat)
    requires NoDuplicates(jobs) && Sim(jobs, s, r) && Enabled(jobs, s, Lookup(j))
    ensures Sim(jobs, Next(jobs, s, Lookup(j)), SerialStep(jobs, r, Lookup(j)))
  {
    var s', r' := Next(jobs, s, Lookup(j)), SerialStep(jobs, r, Lookup(j));
    if jobs[j].loc in s.cache {
      HitFits(jobs, s, r, j);
    } else {
      MissFits(jobs, s, r, j);
    }
    forall i | 0 <= i < |s'.entries| && (i < |s.entries| ==> s.entries[i].loc == jobs[j].loc)
      ensures UsedByJob(jobs, s', i)
    {
      LookupUses(jobs, s, j, i);
    }
    TurnKeepsSim(jobs, s, r, s', r', j);
  }

  lemma {:induction false} TurnStepKeepsSim(jobs: seq<Job>, s: State, r: Serial, step: Step, j: nat)
    requires NoDuplicates(jobs) && Sim(jobs, s, r) && Enabled(jobs, s, step)
    requires step == Make(j) || step == Replace(j) || step == Release(j) || step == Pack(j)
    ensures Sim(jobs, Next(jobs, s, step), r)
  {
    var s' := Next(jobs, s, step);
    assert JobFits(jobs[j], s.phases[j], s, r, j);
    forall i | 0 <= i < |s'.entries| && (i < |s.entries| ==> s.entries[i].loc == jobs[j].loc)
      ensures UsedByJob(jobs, s', i)
    {
      InUseIsHeld(jobs, s, i, j);
      assert s'.entries[i].inUse ==> jobs[j].loc == s'.entries[i].loc && Holds(s'.phases[j]) && s'.phases[j].id == i;
    }
    TurnKeepsSim(jobs, s, r, s', r, j);
  }

  lemma {:induction false} EvictKeepsSim(jobs: seq<Job>, s: State, r: Serial, gone: set<TileLocation>)
    requires Sim(jobs, s, r)
    ensures Sim(jobs, Next(jobs, s, Evict(gone)), SerialStep(jobs, r, Evict(gone)))
  {
    var s', r' := Next(jobs, s, Evict(gone)), SerialStep(jobs, r, Evict(gone));
    assert r'.cache.Keys == s'.cache.Keys;
    forall k | 0 <= k < |jobs| ensures JobFits(jobs[k], s'.phases[k], s', r', k) {
      assert JobFits(jobs[k], s.phases[k], s, r, k);
    }
    forall i | 0 <= i < |s'.entries| ensures UsedByJob(jobs, s', i) {
      assert UsedByJob(jobs, s, i);
    }
  }

  lemma {:induction false} StepKeepsSim(jobs: seq<Job>, s: State, r: Serial, step: Step)
    requires NoDuplicates(jobs) && Sim(jobs, s, r) && Enabled(jobs, s, step)
    ensures Sim(jobs, Next(jobs, s, step), SerialStep(jobs, r, step))
  {
    match step
    case Lookup(j) => LookupKeepsSim(jobs, s, r, j);
    case Evict(gone) => EvictKeepsSim(jobs, s, r, gone);
    case Make(j) => TurnStepKeepsSim(jobs, s, r, step, j);
    case Replace(j) => TurnStepKeepsSim(jobs, s, r, step, j);
    case Release(j) => TurnStepKeepsSim(jobs, s, r, step, j);
    case Pack(j) => TurnStepKeepsSim(jobs, s, r, step, j);
  }

  // ---------- over every run ----------

  lemma {:induction false} RunSims(jobs: seq<Job>, states: seq<State>, steps: seq<Step>, n: nat)
    requires NoDuplicates(jobs) && IsRun(jobs, states, steps) && n <= |steps|
    ensures Sim(jobs, states[n], SerialAfter(jobs, StartTiles(states[0]), steps, n))
  {
    if n == 0 {
      StartSim(jobs, states[0]);
    } else {
      RunSims(jobs, states, steps, n - 1);
      assert Steps(jobs, states[n - 1], steps[n - 1], states[n - 1 + 1]);
      StepKeepsSim(jobs, states[n - 1], SerialAfter(jobs, StartTiles(states[0]), steps, n - 1), steps[n - 1]);
    }
  }

  /** In every interleaving of a batch without duplicates, no assert fires, the cache has one entry
      per location, and every message that is ready is the one the job gets when all jobs are
      done one after the other, in the order of their lookups. */
  lemma {:induction false} BatchIsSerial(jobs: seq<Job>, states: seq<State>, steps: seq<Step>, n: nat)
    requires NoDuplicates(jobs) && IsRun(jobs, states, steps) && n <= |steps|
    ensures n < |steps| ==> Enabled(jobs, states[n], steps[n]) && Asserts(jobs, states[n], steps[n])
    ensures CacheFits(states[n]) && |states[n].phases| == |jobs|
    ensures forall j :: 0 <= j < |jobs| && states[n].phases[j].Done? ==>
              j in SerialAfter(jobs, StartTiles(states[0]), steps, n).msgs &&
              states[n].phases[j].msg == SerialAfter(jobs, StartTiles(states[0]), steps, n).msgs[j]
  {
    RunSims(jobs, states, steps, n);
    var r := SerialAfter(jobs, StartTiles(states[0]), steps, n);
    forall j | 0 <= j < |jobs| && states[n].phases[j].Done?
      ensures j in r.msgs && states[n].phases[j].msg == r.msgs[j]
    {
      assert JobFits(jobs[j], states[n].phases[j], states[n], r, j);
    }
    if n < |steps| {
      assert Steps(jobs, states[n], steps[n], states[n + 1]);
      AssertsHold(jobs, states[n], r, steps[n]);
    }
  }

  /** Once all jobs that were begun are done the cache holds what the serial order leaves in it, and
      nothing is in use. */
  lemma {:induction false} BatchLeavesCache(jobs: seq<Job>, states: seq<State>, steps: seq<Step>)
    requires NoDuplicates(jobs) && IsRun(jobs, states, steps)
    requires var last := states[|steps|];
             |last.phases| == |jobs| && forall j :: 0 <= j < |jobs| ==> last.phases[j].Done? || last.phases[j].Todo?
    ensures CacheFits(states[|steps|])
    ensures StartTiles(states[|steps|]) == SerialAfter(jobs, StartTiles(states[0]), steps, |steps|).cache
    ensures forall i :: 0 <= i < |states[|steps|].entries| ==> !states[|steps|].entries[i].inUse
  {
    var s, r := states[|steps|], SerialAfter(jobs, StartTiles(states[0]), steps, |steps|);
    RunSims(jobs, states, steps, |steps|);
    forall l | l in s.cache ensures r.cache[l] == StartTiles(s)[l] {
      if j :| 0 <= j < |jobs| && jobs[j].loc == l {
        assert JobFits(jobs[j], s.phases[j], s, r, j);
      }
    }
    forall i | 0 <= i < |s.entries| ensures !s.entries[i].inUse {
      assert UsedByJob(jobs, s, i);
    }
  }

  // ---------- what the client makes of it ----------

  /** The bytes of a message. */
  ghost predicate Sent(msg: Message, mode: TileMode, bytes: seq<Byte>) {
    match msg
    case DeltaOf(base, tile) =>
      exists ops :: IsDelta(ops, base.rows, tile.rows, mode) && bytes == [DELTA] + DeltaBytes(ops)
    case KeyframeOf(tile) => bytes == [KEYFRAME] + KeyframeBytes(tile.rows, mode)
  }

  /** Messages of the serial order are those of the protocol. */
  lemma {:induction false} SentIsMessage(held: Option<Tile>, job: Job, mode: TileMode, bytes: seq<Byte>)
    ensures Sent(MessageFor(held, job), mode, bytes) <==> IsMessage(held, job.tile, job.force, mode, bytes)
  {
  }

  /** A message of the serial order shows the job's tile to every client that shows what the
      cache held for its location when the batch began. */
  ghost predicate MessageFits(held: Option<Tile>, job: Job, msg: Message) {
    msg == MessageFor(None, job) || msg == MessageFor(held, job)
  }

  lemma {:induction false} RunMessagesFit(jobs: seq<Job>, states: seq<State>, steps: seq<Step>, n: nat, j: nat)
    requires NoDuplicates(jobs) && IsRun(jobs, states, steps) && n <= |steps| && j < |jobs|
    ensures var r := SerialAfter(jobs, StartTiles(states[0]), steps, n);
            var held := Find(StartTiles(states[0]), jobs[j].loc);
            && (j in r.msgs ==> MessageFits(held, jobs[j], r.msgs[j]))
            && (j !in r.msgs && jobs[j].loc in r.cache ==> held == Some(r.cache[jobs[j].loc]))
  {
    if n > 0 {
      RunMessagesFit(jobs, states, steps, n - 1, j);
      var r := SerialAfter(jobs, StartTiles(states[0]), steps, n - 1);
      assert Steps(jobs, states[n - 1], steps[n - 1], states[n - 1 + 1]);
      match steps[n - 1]
      case Lookup(k) =>
        if k == j {
          RunSims(jobs, states, steps, n - 1);
          assert JobFits(jobs[j], states[n - 1].phases[j], states[n - 1], r, j);
        } else {
          assert jobs[k].loc != jobs[j].loc;
        }
      case _ =>
    }
  }

  /** A client that shows what the cache held shows the job's tile after its message. */
  lemma {:induction false} FittingMessageShows(client: Client, held: Option<Tile>, job: Job, msg: Message,
                                               mode: TileMode, bytes: seq<Byte>)
    requires Acceptable(job.tile) && MessageFits(held, job, msg) && Sent(msg, mode, bytes)
    requires held.Some? ==> job.loc in client && client[job.loc] == Show(held.value, mode)
    ensures ClientApply(client, job.loc, job.tile.width, |job.tile.rows|, bytes)
         == client[job.loc := Show(job.tile, mode)]
  {
    match msg
    case DeltaOf(base, tile) =>
      var ops :| IsDelta(ops, base.rows, tile.rows, mode) && bytes == [DELTA] + DeltaBytes(ops);
      DeltaShows(client, job.loc, base, tile, ops, mode);
    case KeyframeOf(tile) => KeyframeShows(client, job.loc, tile, mode);
  }

  /** A client that gets the messages of the first n jobs of an order. */
  function Delivered(client: Client, jobs: seq<Job>, order: seq<nat>, bytes: seq<seq<Byte>>, n: nat): Client
    requires n <= |order| && |bytes| == |jobs| && forall i :: 0 <= i < |order| ==> order[i] < |jobs|
  {
    if n == 0 then client
    else
      var j := order[n - 1];
      ClientApply(Delivered(client, jobs, order, bytes, n - 1), jobs[j].loc, jobs[j].tile.width, |jobs[j].tile.rows|,
                  bytes[j])
  }

  /** A client that is just shown the tiles of the first n jobs of an order. */
  function Rendered(client: Client, jobs: seq<Job>, order: seq<nat>, n: nat, mode: TileMode): Client
    requires n <= |order| && forall i :: 0 <= i < |order| ==> order[i] < |jobs|
  {
    if n == 0 then client
    else Rendered(client, jobs, order, n - 1, mode)[jobs[order[n - 1]].loc := Show(jobs[order[n - 1]].tile, mode)]
  }

  lemma {:induction false} RenderedElsewhere(client: Client, jobs: seq<Job>, order: seq<nat>, n: nat, mode: TileMode,
                                             j: nat)
    requires NoDuplicates(jobs) && IsOrder(order, |jobs|) && n <= |order| && j < |jobs|
    requires forall i :: 0 <= i < n ==> order[i] != j
    ensures var after := Rendered(client, jobs, order, n, mode);
            && (jobs[j].loc in after <==> jobs[j].loc in client)
            && (jobs[j].loc in client ==> after[jobs[j].loc] == client[jobs[j].loc])
  {
    if n > 0 {
      RenderedElsewhere(client, jobs, order, n - 1, mode, j);
      assert jobs[order[n - 1]].loc != jobs[j].loc;
    }
  }

  /** Each tile of the order is shown, whichever comes after it. */
  lemma {:induction false} RenderedEach(client: Client, jobs: seq<Job>, order: seq<nat>, n: nat, mode: TileMode, i: nat)
    requires NoDuplicates(jobs) && IsOrder(order, |jobs|) && i < n <= |order|
    ensures var after := Rendered(client, jobs, order, n, mode);
            var job := jobs[order[i]];
            job.loc in after && after[job.loc] == Show(job.tile, mode)
  {
    if i < n - 1 {
      RenderedEach(client, jobs, order, n - 1, mode, i);
      assert order[i] != order[n - 1];
      assert jobs[order[i]].loc != jobs[order[n - 1]].loc;
    }
  }

  /** A job is done and its message turned into bytes, or it was never begun. */
  ghost predicate JobDone(job: Job, p: Phase, begun: bool, bytes: seq<Byte>, mode: TileMode) {
    if begun then Acceptable(job.tile) && p.Done? && Sent(p.msg, mode, bytes) else p.Todo?
  }

  /** The jobs of an order are done, and no other has been begun. */
  ghost predicate BatchDone(jobs: seq<Job>, s: State, order: seq<nat>, bytes: seq<seq<Byte>>, mode: TileMode) {
    |s.phases| == |jobs| == |bytes| && IsOrder(order, |jobs|) &&
    forall j :: 0 <= j < |jobs| ==> JobDone(jobs[j], s.phases[j], j in order, bytes[j], mode)
  }

  lemma {:induction false} DoneOrTodo(jobs: seq<Job>, s: State, order: seq<nat>, bytes: seq<seq<Byte>>, mode: TileMode)
    requires BatchDone(jobs, s, order, bytes, mode)
    ensures forall j :: 0 <= j < |jobs| ==> s.phases[j].Done? || s.phases[j].Todo?
  {
    forall j | 0 <= j < |jobs| ensures s.phases[j].Done? || s.phases[j].Todo? {
      assert JobDone(jobs[j], s.phases[j], j in order, bytes[j], mode);
    }
  }

  ghost predicate InStepWith(client: Client, tiles: map<TileLocation, Tile>, mode: TileMode) {
    forall l :: l in tiles ==> l in client && client[l] == Show(tiles[l], mode)
  }

  lemma {:induction false} DoneMessageFits(jobs: seq<Job>, states: seq<State>, steps: seq<Step>, j: nat)
    requires NoDuplicates(jobs) && IsRun(jobs, states, steps) && j < |states[|steps|].phases| == |jobs|
    requires states[|steps|].phases[j].Done?
    ensures MessageFits(Find(StartTiles(states[0]), jobs[j].loc), jobs[j], states[|steps|].phases[j].msg)
  {
    BatchIsSerial(jobs, states, steps, |steps|);
    RunMessagesFit(jobs, states, steps, |steps|, j);
  }

  /** The messages of a batch may reach the client in any order, and that need not be the order of
      the lookups: a client that was in step with the cache is shown each tile of the batch. */
  lemma {:induction false} BatchShows(jobs: seq<Job>, states: seq<State>, steps: seq<Step>, client: Client,
                                      order: seq<nat>, bytes: seq<seq<Byte>>, n: nat, mode: TileMode)
    requires NoDuplicates(jobs) && IsRun(jobs, states, steps) && BatchDone(jobs, states[|steps|], order, bytes, mode)
    requires n <= |order| && InStepWith(client, StartTiles(states[0]), mode)
    ensures Delivered(client, jobs, order, bytes, n) == Rendered(client, jobs, order, n, mode)
  {
    if n > 0 {
      BatchShows(jobs, states, steps, client, order, bytes, n - 1, mode);
      var j := order[n - 1];
      RenderedElsewhere(client, jobs, order, n - 1, mode, j);
      assert JobDone(jobs[j], states[|steps|].phases[j], j in order, bytes[j], mode);
      DoneMessageFits(jobs, states, steps, j);
      FittingMessageShows(Delivered(client, jobs, order, bytes, n - 1), Find(StartTiles(states[0]), jobs[j].loc),
                          jobs[j], states[|steps|].phases[j].msg, mode, bytes[j]);
    }
  }

  // ---------- batch after batch ----------

  ghost predicate NotFor(jobs: seq<Job>, l: TileLocation) {
    forall j :: 0 <= j < |jobs| ==> jobs[j].loc != l
  }

  /** A location of no job keeps its tile in the cache, if it stays there ... */
  lemma {:induction false} UntouchedInCache(jobs: seq<Job>, cache0: map<TileLocation, Tile>, steps: seq<Step>, n: nat,
                                            l: TileLocation)
    requires NotFor(jobs, l) && n <= |steps|
    ensures l in SerialAfter(jobs, cache0, steps, n).cache ==>
              l in cache0 && SerialAfter(jobs, cache0, steps, n).cache[l] == cache0[l]
  {
    if n > 0 {
      UntouchedInCache(jobs, cache0, steps, n - 1, l);
    }
  }

  /** ... and is shown as before. */
  lemma {:induction false} UntouchedInClient(client: Client, jobs: seq<Job>, order: seq<nat>, n: nat, mode: TileMode,
                                             l: TileLocation)
    requires NotFor(jobs, l) && n <= |order| && forall i :: 0 <= i < |order| ==> order[i] < |jobs|
    ensures var after := Rendered(client, jobs, order, n, mode);
            (l in after <==> l in client) && (l in client ==> after[l] == client[l])
  {
    if n > 0 {
      UntouchedInClient(client, jobs, order, n - 1, mode, l);
    }
  }

  /** What the cache holds for the location of a finished job is the job's tile. For one that was
      not begun it is what it was before. */
  lemma {:induction false} FinishedTile(jobs: seq<Job>, states: seq<State>, steps: seq<Step>, j: nat)
    requires NoDuplicates(jobs) && IsRun(jobs, states, steps) && j < |jobs| && |states[|steps|].phases| == |jobs|
    requires CacheFits(states[|steps|]) && jobs[j].loc in states[|steps|].cache
    ensures states[|steps|].phases[j].Done? ==> StartTiles(states[|steps|])[jobs[j].loc] == jobs[j].tile
    ensures states[|steps|].phases[j].Todo? ==>
              Find(StartTiles(states[0]), jobs[j].loc) == Some(StartTiles(states[|steps|])[jobs[j].loc])
  {
    var s, r := states[|steps|], SerialAfter(jobs, StartTiles(states[0]), steps, |steps|);
    RunSims(jobs, states, steps, |steps|);
    assert JobFits(jobs[j], s.phases[j], s, r, j);
    RunMessagesFit(jobs, states, steps, |steps|, j);
  }

  /** The location of a job after a batch whose messages have all been delivered. */
  lemma {:induction false} InStepAtJob(jobs: seq<Job>, states: seq<State>, steps: seq<Step>, client: Client,
      order: seq<nat>, bytes: seq<seq<Byte>>, mode: TileMode, j: nat)
    requires NoDuplicates(jobs) && IsRun(jobs, states, steps) && BatchDone(jobs, states[|steps|], order, bytes, mode)
    requires InStepWith(client, StartTiles(states[0]), mode)
    requires CacheFits(states[|steps|]) && j < |jobs| && jobs[j].loc in StartTiles(states[|steps|])
    ensures var after := Rendered(client, jobs, order, |order|, mode);
            jobs[j].loc in after && after[jobs[j].loc] == Show(StartTiles(states[|steps|])[jobs[j].loc], mode)
  {
    FinishedTile(jobs, states, steps, j);
    assert JobDone(jobs[j], states[|steps|].phases[j], j in order, bytes[j], mode);
    if j in order {
      var i :| 0 <= i < |order| && order[i] == j;
      RenderedEach(client, jobs, order, |order|, mode, i);
    } else {
      RenderedElsewhere(client, jobs, order, |order|, mode, j);
    }
  }

  /** Any location after such a batch. */
  lemma {:induction false} InStepAt(jobs: seq<Job>, states: seq<State>, steps: seq<Step>, client: Client,
                                    order: seq<nat>, bytes: seq<seq<Byte>>, mode: TileMode, l: TileLocation)
    requires NoDuplicates(jobs) && IsRun(jobs, states, steps) && BatchDone(jobs, states[|steps|], order, bytes, mode)
    requires InStepWith(client, StartTiles(states[0]), mode)
    requires CacheFits(states[|steps|]) && l in StartTiles(states[|steps|])
    ensures var after := Rendered(client, jobs, order, |order|, mode);
            l in after && after[l] == Show(StartTiles(states[|steps|])[l], mode)
  {
    if j :| 0 <= j < |jobs| && jobs[j].loc == l {
      InStepAtJob(jobs, states, steps, client, order, bytes, mode, j);
    } else {
      DoneOrTodo(jobs, states[|steps|], order, bytes, mode);
      BatchLeavesCache(jobs, states, steps);
      UntouchedInCache(jobs, StartTiles(states[0]), steps, |steps|, l);
      UntouchedInClient(client, jobs, order, |order|, mode, l);
    }
  }

  /** A client in step with the cache before a batch is in step with it again once the messages of
      all jobs that were begun have been delivered, in whatever order. */
  lemma {:induction false} BatchKeepsInStep(jobs: seq<Job>, states: seq<State>, steps: seq<Step>, client: Client,
                                            order: seq<nat>, bytes: seq<seq<Byte>>, mode: TileMode)
    requires NoDuplicates(jobs) && IsRun(jobs, states, steps) && BatchDone(jobs, states[|steps|], order, bytes, mode)
    requires InStepWith(client, StartTiles(states[0]), mode)
    ensures Delivered(client, jobs, order, bytes, |order|) == Rendered(client, jobs, order, |order|, mode)
    ensures CacheFits(states[|steps|])
    ensures InStepWith(Delivered(client, jobs, order, bytes, |order|), StartTiles(states[|steps|]), mode)
  {
    BatchShows(jobs, states, steps, client, order, bytes, |order|, mode);
    BatchIsSerial(jobs, states, steps, |steps|);
    forall l | l in StartTiles(states[|steps|])
      ensures l in Rendered(client, jobs, order, |order|, mode) &&
              Rendered(client, jobs, order, |order|, mode)[l] == Show(StartTiles(states[|steps|])[l], mode)
    {
      InStepAt(jobs, states, steps, client, order, bytes, mode, l);
    }
  }

  /** One batch from its lookups to the delivery of its messages. */
  datatype BatchRun = BatchRun(jobs: seq<Job>, states: seq<State>, steps: seq<Step>, order: seq<nat>,
                               bytes: seq<seq<Byte>>)

  ghost predicate IsBatch(b: BatchRun, mode: TileMode) {
    && NoDuplicates(b.jobs) && IsRun(b.jobs, b.states, b.steps)
    && BatchDone(b.jobs, b.states[|b.steps|], b.order, b.bytes, mode)
  }

  ghost function TilesBefore(b: BatchRun, mode: TileMode): map<TileLocation, Tile>
    requires IsBatch(b, mode)
  {
    StartTiles(b.states[0])
  }

  ghost function TilesAfter(b: BatchRun, mode: TileMode): map<TileLocation, Tile>
    requires IsBatch(b, mode)
  {
    BatchIsSerial(b.jobs, b.states, b.steps, |b.steps|);
    StartTiles(b.states[|b.steps|])
  }

  /** Batches one after the other, from an empty cache; between them entries may be dropped. */
  ghost predicate AreBatches(batches: seq<BatchRun>, mode: TileMode) {
    && (forall k :: 0 <= k < |batches| ==> IsBatch(batches[k], mode))
    && (batches != [] ==> TilesBefore(batches[0], mode) == map[])
    && forall k :: 0 < k < |batches| ==> Dropped(TilesAfter(batches[k - 1], mode), TilesBefore(batches[k], mode))
  }

  ghost predicate Dropped(before: map<TileLocation, Tile>, after: map<TileLocation, Tile>) {
    forall l :: l in after ==> l in before && after[l] == before[l]
  }

  /** The client after the messages of the first n batches. */
  ghost function DeliveredAll(batches: seq<BatchRun>, n: nat, mode: TileMode): Client
    requires n <= |batches| && forall k :: 0 <= k < |batches| ==> IsBatch(batches[k], mode)
  {
    if n == 0 then map[]
    else
      var b := batches[n - 1];
      Delivered(DeliveredAll(batches, n - 1, mode), b.jobs, b.order, b.bytes, |b.order|)
  }

  /** The client that is just shown the tiles of the first n batches. */
  ghost function RenderedAll(batches: seq<BatchRun>, n: nat, mode: TileMode): Client
    requires n <= |batches| && forall k :: 0 <= k < |batches| ==> IsBatch(batches[k], mode)
  {
    if n == 0 then map[]
    else
      var b := batches[n - 1];
      Rendered(RenderedAll(batches, n - 1, mode), b.jobs, b.order, |b.order|, mode)
  }

  /** Over every sequence of batches, whatever the interleaving in each of them, whatever is evicted
      meanwhile or between them and in whatever order messages arrive: the client shows exactly the
      last tile of each location, and is in step with the cache. */
  lemma {:induction false} BatchesStayInStep(batches: seq<BatchRun>, n: nat, mode: TileMode)
    requires AreBatches(batches, mode) && n <= |batches|
    ensures DeliveredAll(batches, n, mode) == RenderedAll(batches, n, mode)
    ensures n > 0 ==> InStepWith(DeliveredAll(batches, n, mode), TilesAfter(batches[n - 1], mode), mode)
  {
    if n > 0 {
      BatchesStayInStep(batches, n - 1, mode);
      var b := batches[n - 1];
      if n > 1 {
        assert Dropped(TilesAfter(batches[n - 1 - 1], mode), TilesBefore(batches[n - 1], mode));
      }
      BatchKeepsInStep(b.jobs, b.states, b.steps, DeliveredAll(batches, n - 1, mode), b.order, b.bytes, mode);
    }
  }
}
