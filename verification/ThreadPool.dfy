/** The work pool as a state machine. The mutex makes everything between two lock operations one
    step: a step is what one thread does from getting the lock to giving it up, be it by
    unlocking or by waiting on a condition. One thread, the caller, pushes work, runs and
    stops; the workers help while it runs. */
module ThreadPools {
  import opened Seqs

  /** Work is told apart by a number. */
  type Job = nat

  datatype Worker =
    | Starting                 // has not taken the lock yet
    | Waiting(notified: bool)  // on _cond
    | Busy(job: Job)           // inside a job, without the lock
    | Ended

  datatype Caller =
    | Idle
    | Working(job: Job, useThreads: bool)  // inside a job, in `run`
    | Completing(notified: bool)           // on _complete, in `run`
    | Stopping                             // _shutdown is set, _cond not yet notified
    | Joining

  /** The fields, where every thread stands, and what has been pushed, begun and finished so far. */
  datatype Pool = Pool(work: seq<Job>, working: int, running: bool, shutdown: bool, workers: seq<Worker>,
                       caller: Caller, pushed: seq<Job>, begun: seq<Job>, done: multiset<Job>)

  datatype Step =
    | Push(job: Job) | Run | CallerDone | CallerWakes | Stop | Notify | Join | Start
    | WorkerStarts(i: nat) | WorkerWakes(i: nat) | WorkerDone(i: nat)

  // ---------- the steps ----------

  function StartWorkers(n: nat): (r: seq<Worker>)
    ensures |r| == n && forall i :: 0 <= i < n ==> r[i].Starting?
  {
    if n == 0 then [] else StartWorkers(n - 1) + [Starting]
  }

  /** The pool as constructed, with n workers. */
  function Fresh(n: nat): Pool {
    Pool([], 0, false, false, StartWorkers(n), Idle, [], [], multiset{})
  }

  function Notified(w: Worker): Worker {
    if w.Waiting? then Waiting(true) else w
  }

  function NotifyAll(workers: seq<Worker>): (r: seq<Worker>)
    ensures |r| == |workers|
    ensures forall i :: 0 <= i < |r| ==> r[i] == Notified(workers[i])
  {
    if workers == [] then []
    else NotifyAll(workers[..|workers| - 1]) + [Notified(workers[|workers| - 1])]
  }

  /** `runOne` up to the unlock, apart from where the thread stands. */
  function Take(s: Pool): Pool
    requires s.work != []
  {
    s.(work := s.work[1..], working := s.working + 1, begun := s.begun + [s.work[0]])
  }

  /** `runOne` from the second lock on. */
  function Finish(s: Pool, job: Job): Pool {
    var s' := s.(working := s.working - 1, done := s.done + multiset{job});
    if s'.work == [] && s'.working == 0 && s'.caller.Completing? then s'.(caller := Completing(true)) else s'
  }

  function Place(s: Pool, i: nat, w: Worker): Pool
    requires i < |s.workers|
  {
    s.(workers := s.workers[i := w])
  }

  /** A worker that holds the lock at the head of its inner loop. */
  function WorkerLoop(s: Pool, i: nat): Pool
    requires i < |s.workers|
  {
    if !s.shutdown && s.work != [] && s.running then Place(Take(s), i, Busy(s.work[0]))
    else WorkerWaits(s, i)
  }

  /** The outer loop of a worker. */
  function WorkerWaits(s: Pool, i: nat): Pool
    requires i < |s.workers|
  {
    Place(s, i, if s.shutdown then Ended else Waiting(false))
  }

  /** The caller at the head of the loop of `run`. */
  function RunLoop(s: Pool, useThreads: bool): Pool {
    if s.work != [] then Take(s).(caller := Working(s.work[0], useThreads))
    else if useThreads && (s.working > 0 || s.work != []) then s.(caller := Completing(false))
    else RunEnds(s)
  }

  function RunEnds(s: Pool): Pool {
    s.(running := false, caller := Idle)
  }

  predicate UseThreads(s: Pool) {
    |s.workers| > 1 && |s.work| > 1
  }

  /** `run` up to the first job, or to its end. */
  function RunBegins(s: Pool): Pool {
    var use := UseThreads(s);
    RunLoop(s.(running := true, workers := if use then NotifyAll(s.workers) else s.workers), use)
  }

  /** The caller comes back from a job. */
  function CallerReturns(s: Pool): Pool
    requires s.caller.Working?
  {
    RunLoop(Finish(s, s.caller.job), s.caller.useThreads)
  }

  /** A worker comes back from a job. */
  function WorkerReturns(s: Pool, i: nat): Pool
    requires i < |s.workers| && s.workers[i].Busy?
  {
    WorkerLoop(Finish(s, s.workers[i].job), i)
  }

  function Starts(s: Pool, n: nat): Pool {
    s.(shutdown := false, workers := s.workers + StartWorkers(if |s.workers| < n then n - |s.workers| else 0))
  }

  /** When a step can be taken. */
  predicate Enabled(s: Pool, step: Step) {
    match step
    case Push(job) => s.caller.Idle?
    case Run => s.caller.Idle?
    case CallerDone => s.caller.Working?
    case CallerWakes => s.caller.Completing?
    case Stop => s.caller.Idle?
    case Notify => s.caller.Stopping?
    case Join => s.caller.Joining? && forall i :: 0 <= i < |s.workers| ==> s.workers[i].Ended?
    case Start => s.caller.Idle?
    case WorkerStarts(i) => i < |s.workers| && s.workers[i].Starting?
    case WorkerWakes(i) => i < |s.workers| && s.workers[i].Waiting?
    case WorkerDone(i) => i < |s.workers| && s.workers[i].Busy?
  }

  /** The step itself, of a pool that is to have n workers. */
  function Next(s: Pool, step: Step, n: nat): Pool
    requires Enabled(s, step)
  {
    match step
    case Push(job) => s.(work := s.work + [job], pushed := s.pushed + [job])
    case Run => RunBegins(s)
    case CallerDone => CallerReturns(s)
    case CallerWakes => if s.working == 0 && s.work == [] then RunEnds(s) else s.(caller := Completing(false))
    case Stop => s.(shutdown := true, caller := Stopping)
    case Notify => s.(workers := NotifyAll(s.workers), caller := Joining)
    case Join => s.(workers := [], caller := Idle)
    case Start => Starts(s, n)
    case WorkerStarts(i) => WorkerWaits(s, i)
    case WorkerWakes(i) => WorkerLoop(s, i)
    case WorkerDone(i) => WorkerReturns(s, i)
  }

  /** What a step asserts on its way. */
  predicate Asserts(s: Pool, step: Step, n: nat)
    requires Enabled(s, step)
  {
    match step
    case Push(job) => !s.running && !s.shutdown && s.working == 0
    case Run => !s.running && s.working == 0 && EndAsserts(s, Next(s, step, n))
    case CallerDone => EndAsserts(s, Next(s, step, n))
    case CallerWakes => EndAsserts(s, Next(s, step, n))
    case Stop => s.working == 0
    case Start => !s.running && s.working == 0
    case _ => true
  }

  /** The asserts at the end of `run`, and those of `runOne` for the job that is begun. */
  predicate EndAsserts(s: Pool, s': Pool) {
    && (s'.caller.Idle? ==> s'.working == 0 && s'.work == [])
    && (s'.caller.Working? ==> s'.running)
  }

  /** The asserts in terms of the fields: work is pushed, and the pool run, started and stopped, only
      while nothing runs; and when `run` returns nothing is left. */
  lemma {:induction false} AssertsMean(s: Pool, step: Step, n: nat)
    requires Enabled(s, step) && Asserts(s, step, n)
    ensures step.Push? ==> !s.running && !s.shutdown && s.working == 0
    ensures step.Run? || step.Start? ==> !s.running && s.working == 0
    ensures step.Stop? ==> s.working == 0
    ensures (step.Run? || step.CallerDone? || step.CallerWakes?) && Next(s, step, n).caller.Idle? ==>
              Next(s, step, n).working == 0 && Next(s, step, n).work == []
    ensures (step.Run? || step.CallerDone?) && Next(s, step, n).caller.Working? ==> Next(s, step, n).running
  {
  }

  /** A worker that wakes from _cond although nobody notified it. */
  predicate Spurious(s: Pool, step: Step)
    requires Enabled(s, step)
  {
    step.WorkerWakes? && !s.workers[step.i].notified
  }

  /** Work that is pushed to a pool that has been stopped. */
  predicate Late(s: Pool, step: Step) {
    step.Push? && s.shutdown
  }

  /** `run` wakes all waiting workers if there are more than one of them and more than one job, and
      none else; `stop` wakes them all. */
  lemma {:induction false} WakesAll(s: Pool, n: nat, i: nat)
    requires i < |s.workers| && s.workers[i].Waiting?
    requires Enabled(s, Run) || Enabled(s, Notify)
    ensures var s' := Next(s, if Enabled(s, Run) then Run else Notify, n);
            && |s'.workers| == |s.workers|
            && s'.workers[i] == if !Enabled(s, Run) || (|s.workers| > 1 && |s.work| > 1) then Waiting(true)
                                else s.workers[i]
  {
  }

  // ---------- runs ----------

  ghost predicate IsRun(n: nat, spurious: bool, states: seq<Pool>, steps: seq<Step>) {
    && |states| == |steps| + 1
    && states[0] == Fresh(n)
    && forall i :: 0 <= i < |steps| ==> Steps(n, spurious, states[i], steps[i], states[i + 1])
  }

  predicate Steps(n: nat, spurious: bool, s: Pool, step: Step, s': Pool) {
    Enabled(s, step) && (Spurious(s, step) ==> spurious) && s' == Next(s, step, n)
  }

  // ---------- jobs in flight ----------

  function JobOf(w: Worker): multiset<Job> {
    if w.Busy? then multiset{w.job} else multiset{}
  }

  function Jobs(workers: seq<Worker>): multiset<Job> {
    if workers == [] then multiset{}
    else Jobs(workers[..|workers| - 1]) + JobOf(workers[|workers| - 1])
  }

  /** The jobs some thread is inside of. */
  function InFlight(s: Pool): multiset<Job> {
    Jobs(s.workers) + if s.caller.Working? then multiset{s.caller.job} else multiset{}
  }

  lemma {:induction false} AddBoth(a: multiset<Job>, b: multiset<Job>, c: multiset<Job>, d: multiset<Job>,
                                   e: multiset<Job>)
    requires a + b == c + d
    ensures a + e + b == c + e + d
  {
    assert a + e + b == a + b + e;
    assert c + e + d == c + d + e;
  }

  lemma {:induction false} SwapLast(a: multiset<Job>, b: multiset<Job>, c: multiset<Job>)
    ensures a + b + c == a + c + b
  {
  }

  lemma {:induction false} JobInside(workers: seq<Worker>, i: nat)
    requires i < |workers|
    ensures |Jobs(workers)| >= |JobOf(workers[i])|
  {
    if i < |workers| - 1 {
      JobInside(workers[..|workers| - 1], i);
    }
  }

  lemma {:induction false} JobsUpdate(workers: seq<Worker>, i: nat, w: Worker)
    requires i < |workers|
    ensures Jobs(workers[i := w]) + JobOf(workers[i]) == Jobs(workers) + JobOf(w)
  {
    var last := |workers| - 1;
    if i < last {
      FrontOfUpdate(workers, i, w);
      JobsUpdate(workers[..last], i, w);
      AddBoth(Jobs(workers[..last][i := w]), JobOf(workers[i]), Jobs(workers[..last]), JobOf(w), JobOf(workers[last]));
    } else {
      assert workers[i := w][..last] == workers[..last];
      SwapLast(Jobs(workers[..last]), JobOf(w), JobOf(workers[i]));
    }
  }

  lemma {:induction false} JobsNotify(workers: seq<Worker>)
    ensures Jobs(NotifyAll(workers)) == Jobs(workers)
  {
    if workers != [] {
      var last := |workers| - 1;
      JobsNotify(workers[..last]);
      Parts(NotifyAll(workers[..last]), [Notified(workers[last])]);
    }
  }

  lemma {:induction false} JobsStart(workers: seq<Worker>, n: nat)
    ensures Jobs(workers + StartWorkers(n)) == Jobs(workers)
  {
    if n == 0 {
      EmptyTail(workers);
    } else {
      JobsStart(workers, n - 1);
      Assoc(workers, StartWorkers(n - 1), [Starting]);
      Parts(workers + StartWorkers(n - 1), [Starting]);
    }
  }

  // ---------- the invariant ----------

  /** Nobody notified this worker. */
  ghost predicate Unnotified(workers: seq<Worker>) {
    forall i :: 0 <= i < |workers| ==> workers[i] != Waiting(true)
  }

  /** Where the jobs are: in the queue, in flight or done, each once and begun in order. */
  ghost predicate Kept(pushed: seq<Job>, begun: seq<Job>, work: seq<Job>, flight: multiset<Job>, done: multiset<Job>,
                       working: int) {
    pushed == begun + work && multiset(begun) == flight + done && working == |flight|
  }

  ghost predicate JobsKept(s: Pool) {
    Kept(s.pushed, s.begun, s.work, InFlight(s), s.done, s.working)
  }

  /** What the fields say about where the caller stands. */
  ghost predicate CallerKept(s: Pool) {
    && s.running == (s.caller.Working? || s.caller.Completing?)
    && (!s.running ==> s.working == 0)
    && (s.caller.Working? && !s.caller.useThreads ==> s.working == 1 && (s.work == [] || |s.workers| <= 1))
    && (s.caller.Working? && s.caller.useThreads ==> |s.workers| > 1)
    && (s.caller.Completing? ==> s.work == [] && !s.shutdown && (s.working > 0 || s.caller.notified))
    && (s.shutdown ==> s.caller.Stopping? || s.caller.Joining? || s.workers == [])
    && (s.caller.Stopping? || s.caller.Joining? ==> s.shutdown)
  }

  /** What the workers rely on. */
  ghost predicate WorkersKept(s: Pool, n: nat) {
    && (s.workers == [] || |s.workers| == n)
    && (n == 1 && !s.shutdown ==> Unnotified(s.workers))
    && (s.caller.Joining? ==> forall i :: 0 <= i < |s.workers| ==> s.workers[i] != Waiting(false))
    && (!s.shutdown ==> forall i :: 0 <= i < |s.workers| ==> !s.workers[i].Ended?)
  }

  ghost predicate Inv(s: Pool, n: nat) {
    JobsKept(s) && CallerKept(s) && WorkersKept(s, n)
  }

  // ---------- every step keeps it ----------

  /** A worker in job i or out of one makes no difference to its next turn. */
  lemma {:induction false} OutOfJob(s: Pool, i: nat)
    requires i < |s.workers|
    ensures WorkerLoop(s, i) == WorkerLoop(Place(s, i, Waiting(false)), i)
  {
    var w := WorkerLoop(s, i).workers[i];
    UpdateTwice(s.workers, i, Waiting(false), w);
    assert Place(s, i, Waiting(false)).workers[i := w] == s.workers[i := w];
  }

  lemma {:induction false} TakeKept(pushed: seq<Job>, begun: seq<Job>, work: seq<Job>, flight: multiset<Job>,
                                    done: multiset<Job>, working: int)
    requires Kept(pushed, begun, work, flight, done, working) && work != []
    ensures Kept(pushed, begun + [work[0]], work[1..], flight + multiset{work[0]}, done, working + 1)
  {
    assert [work[0]] + work[1..] == work;
    Assoc(begun, [work[0]], work[1..]);
  }

  lemma {:induction false} FinishKept(pushed: seq<Job>, begun: seq<Job>, work: seq<Job>, flight: multiset<Job>,
                                      done: multiset<Job>, working: int, job: Job)
    requires Kept(pushed, begun, work, flight + multiset{job}, done, working)
    ensures Kept(pushed, begun, work, flight, done + multiset{job}, working - 1)
  {
    assert flight + multiset{job} + done == flight + (done + multiset{job});
  }

  lemma {:induction false} InFlightPlace(s: Pool, i: nat, w: Worker)
    requires i < |s.workers|
    ensures InFlight(Place(s, i, w)) + JobOf(s.workers[i]) == InFlight(s) + JobOf(w)
  {
    JobsUpdate(s.workers, i, w);
    AddBoth(Jobs(s.workers[i := w]), JobOf(s.workers[i]), Jobs(s.workers), JobOf(w),
            if s.caller.Working? then multiset{s.caller.job} else multiset{});
  }

  lemma {:induction false} NoneLess(a: multiset<Job>, b: multiset<Job>, none: multiset<Job>)
    requires a + none == b && none == multiset{}
    ensures a == b
  {
    assert a + none == a;
  }

  lemma {:induction false} WorkerWaitKeepsJobs(s: Pool, i: nat)
    requires JobsKept(s) && i < |s.workers| && !s.workers[i].Busy?
    ensures JobsKept(WorkerWaits(s, i))
  {
    var w := if s.shutdown then Ended else Waiting(false);
    InFlightPlace(s, i, w);
    NoneLess(InFlight(Place(s, i, w)), InFlight(s) + JobOf(w), JobOf(s.workers[i]));
    NoneLess(InFlight(s), InFlight(s) + JobOf(w), JobOf(w));
  }

  lemma {:induction false} WorkerTakeKeepsJobs(s: Pool, i: nat)
    requires JobsKept(s) && i < |s.workers| && !s.workers[i].Busy? && s.work != []
    ensures JobsKept(Place(Take(s), i, Busy(s.work[0])))
  {
    var w := Busy(s.work[0]);
    InFlightPlace(s, i, w);
    NoneLess(InFlight(Place(s, i, w)), InFlight(s) + JobOf(w), JobOf(s.workers[i]));
    TakeKept(s.pushed, s.begun, s.work, InFlight(s), s.done, s.working);
  }

  lemma {:induction false} WorkerLoopKeepsJobs(s: Pool, i: nat)
    requires JobsKept(s) && i < |s.workers| && !s.workers[i].Busy?
    ensures JobsKept(WorkerLoop(s, i))
  {
    if !s.shutdown && s.work != [] && s.running {
      WorkerTakeKeepsJobs(s, i);
    } else {
      WorkerWaitKeepsJobs(s, i);
    }
  }

  lemma {:induction false} RunLoopKeepsJobs(s: Pool, useThreads: bool)
    requires JobsKept(s) && !s.caller.Working?
    ensures JobsKept(RunLoop(s, useThreads))
  {
    NoneLess(Jobs(s.workers), Jobs(s.workers) + multiset{}, multiset{});
    if s.work != [] {
      TakeKept(s.pushed, s.begun, s.work, InFlight(s), s.done, s.working);
    }
  }

  lemma {:induction false} FinishKeepsJobs(s: Pool, i: nat)
    requires JobsKept(s) && i < |s.workers| && s.workers[i].Busy?
    ensures JobsKept(Place(Finish(s, s.workers[i].job), i, Waiting(false)))
  {
    var job := s.workers[i].job;
    var s' := Place(Finish(s, job), i, Waiting(false));
    InFlightPlace(s, i, Waiting(false));
    NoneLess(InFlight(s), InFlight(s) + multiset{}, multiset{});
    FinishKept(s.pushed, s.begun, s.work, InFlight(s'), s.done, s.working, job);
  }

  lemma {:induction false} CallerFinishKeepsJobs(s: Pool)
    requires JobsKept(s) && s.caller.Working?
    ensures JobsKept(Finish(s, s.caller.job).(caller := Idle))
  {
    NoneLess(Jobs(s.workers), Jobs(s.workers) + multiset{}, multiset{});
    FinishKept(s.pushed, s.begun, s.work, Jobs(s.workers), s.done, s.working, s.caller.job);
  }

  lemma {:induction false} CallerReturnKeepsJobs(s: Pool)
    requires JobsKept(s) && s.caller.Working?
    ensures JobsKept(CallerReturns(s))
  {
    CallerFinishKeepsJobs(s);
    RunLoopKeepsJobs(Finish(s, s.caller.job).(caller := Idle), s.caller.useThreads);
  }

  lemma {:induction false} RunKeepsJobs(s: Pool)
    requires JobsKept(s) && s.caller.Idle?
    ensures JobsKept(RunBegins(s))
  {
    JobsNotify(s.workers);
    var use := UseThreads(s);
    RunLoopKeepsJobs(s.(running := true, workers := if use then NotifyAll(s.workers) else s.workers), use);
  }

  lemma {:induction false} WorkerReturnKeepsJobs(s: Pool, i: nat)
    requires JobsKept(s) && i < |s.workers| && s.workers[i].Busy?
    ensures JobsKept(WorkerReturns(s, i))
  {
    FinishKeepsJobs(s, i);
    OutOfJob(Finish(s, s.workers[i].job), i);
    WorkerLoopKeepsJobs(Place(Finish(s, s.workers[i].job), i, Waiting(false)), i);
  }

  lemma {:induction false} NoJobs(workers: seq<Worker>)
    requires forall i :: 0 <= i < |workers| ==> !workers[i].Busy?
    ensures Jobs(workers) == multiset{}
  {
    if workers != [] {
      NoJobs(workers[..|workers| - 1]);
    }
  }

  lemma {:induction false} SameFlightKeepsJobs(s: Pool, s': Pool)
    requires JobsKept(s) && Jobs(s'.workers) == Jobs(s.workers) && s.caller.Working? == s'.caller.Working? == false
    requires s'.begun == s.begun && s'.done == s.done && s'.working == s.working && s'.pushed == s'.begun + s'.work
    ensures JobsKept(s')
  {
  }

  lemma {:induction false} CallerStepKeepsJobs(s: Pool, step: Step, n: nat)
    requires JobsKept(s) && Enabled(s, step) && (step.Push? || step.Notify? || step.Join? || step.Start?)
    ensures JobsKept(Next(s, step, n))
  {
    match step
    case Push(job) =>
      Assoc(s.begun, s.work, [job]);
      SameFlightKeepsJobs(s, Next(s, step, n));
    case Notify =>
      JobsNotify(s.workers);
      SameFlightKeepsJobs(s, Next(s, step, n));
    case Join =>
      NoJobs(s.workers);
      SameFlightKeepsJobs(s, Next(s, step, n));
    case Start =>
      JobsStart(s.workers, if |s.workers| < n then n - |s.workers| else 0);
      SameFlightKeepsJobs(s, Next(s, step, n));
  }

  lemma {:induction false} StepKeepsJobs(s: Pool, step: Step, n: nat)
    requires JobsKept(s) && Enabled(s, step)
    ensures JobsKept(Next(s, step, n))
  {
    match step
    case Run => RunKeepsJobs(s);
    case CallerDone => CallerReturnKeepsJobs(s);
    case CallerWakes => SameFlightKeepsJobs(s, Next(s, step, n));
    case Stop => SameFlightKeepsJobs(s, Next(s, step, n));
    case WorkerStarts(i) => WorkerWaitKeepsJobs(s, i);
    case WorkerWakes(i) => WorkerLoopKeepsJobs(s, i);
    case WorkerDone(i) => WorkerReturnKeepsJobs(s, i);
    case _ => CallerStepKeepsJobs(s, step, n);
  }

  /** Some worker is in a job when more jobs are in flight than the caller's. */
  lemma {:induction false} BusyWorker(workers: seq<Worker>) returns (i: nat)
    requires Jobs(workers) != multiset{}
    ensures i < |workers| && workers[i].Busy?
  {
    var last := |workers| - 1;
    if workers[last].Busy? {
      i := last;
    } else {
      i := BusyWorker(workers[..last]);
    }
  }

  /** Every thread inside a job is counted. */
  lemma {:induction false} FlightSize(s: Pool)
    requires JobsKept(s)
    ensures s.working >= if s.caller.Working? then 1 else 0
    ensures forall i :: 0 <= i < |s.workers| && s.workers[i].Busy? ==> s.working >= if s.caller.Working? then 2 else 1
  {
    forall i | 0 <= i < |s.workers| && s.workers[i].Busy?
      ensures s.working >= if s.caller.Working? then 2 else 1
    {
      JobInside(s.workers, i);
    }
  }

  predicate ByCaller(step: Step) {
    !(step.WorkerStarts? || step.WorkerWakes? || step.WorkerDone?)
  }

  lemma {:induction false} CallerStepKeepsCaller(s: Pool, step: Step, n: nat)
    requires CallerKept(s) && Enabled(s, step) && ByCaller(step)
    requires s.working >= if s.caller.Working? then 1 else 0
    ensures CallerKept(Next(s, step, n)) && (Asserts(s, step, n) <==> !Late(s, step))
  {
    match step
    case Run =>
    case CallerDone =>
    case _ =>
  }

  lemma {:induction false} WorkerStepKeepsCaller(s: Pool, step: Step, n: nat)
    requires CallerKept(s) && WorkersKept(s, n) && Enabled(s, step) && !ByCaller(step)
    requires Spurious(s, step) ==> n != 1
    requires step.WorkerDone? ==> s.working >= if s.caller.Working? then 2 else 1
    ensures CallerKept(Next(s, step, n)) && Asserts(s, step, n)
  {
    match step
    case WorkerStarts(i) =>
    case WorkerWakes(i) =>
    case WorkerDone(i) =>
  }

  lemma {:induction false} CallerStepKeepsWorkers(s: Pool, step: Step, n: nat)
    requires CallerKept(s) && WorkersKept(s, n) && Enabled(s, step) && ByCaller(step)
    ensures WorkersKept(Next(s, step, n), n)
  {
    match step
    case Run =>
    case CallerDone =>
    case _ =>
  }

  lemma {:induction false} PlaceKeepsWorkers(s: Pool, s': Pool, i: nat, w: Worker, n: nat)
    requires WorkersKept(s, n) && i < |s.workers| && s'.workers == s.workers[i := w]
    requires s'.shutdown == s.shutdown && s'.caller.Joining? == s.caller.Joining?
    requires if w.Ended? then s.shutdown else !s.shutdown && w != Waiting(true)
    requires s.caller.Joining? ==> s.shutdown
    ensures WorkersKept(s', n)
  {
  }

  lemma {:induction false} StepKeepsWorkers(s: Pool, step: Step, n: nat)
    requires CallerKept(s) && WorkersKept(s, n) && Enabled(s, step)
    ensures WorkersKept(Next(s, step, n), n)
  {
    var s' := Next(s, step, n);
    match step
    case WorkerStarts(i) => PlaceKeepsWorkers(s, s', i, s'.workers[i], n);
    case WorkerWakes(i) => PlaceKeepsWorkers(s, s', i, s'.workers[i], n);
    case WorkerDone(i) => PlaceKeepsWorkers(s, s', i, s'.workers[i], n);
    case _ => CallerStepKeepsWorkers(s, step, n);
  }

  /** Unless a lone worker wakes unnotified, the invariant is kept, and no assert fires but that
      against work pushed to a stopped pool. */
  lemma {:induction false} StepKeepsInv(s: Pool, step: Step, n: nat)
    requires Inv(s, n) && Enabled(s, step) && (Spurious(s, step) ==> n != 1)
    ensures Inv(Next(s, step, n), n) && (Asserts(s, step, n) <==> !Late(s, step))
  {
    FlightSize(s);
    StepKeepsJobs(s, step, n);
    StepKeepsWorkers(s, step, n);
    if ByCaller(step) {
      CallerStepKeepsCaller(s, step, n);
    } else {
      WorkerStepKeepsCaller(s, step, n);
    }
  }

  lemma {:induction false} FreshInv(n: nat)
    ensures Inv(Fresh(n), n)
  {
    NoJobs(StartWorkers(n));
  }

  // ---------- safety over every run ----------

  /** No assert fires in any run. `spurious` says whether `_cond` may wake a thread that was not
      notified, `late` whether the caller may push work after `stop`. */
  ghost predicate AlwaysAsserts(n: nat, spurious: bool, late: bool) {
    forall states, steps, i ::
      IsRun(n, spurious, states, steps) && (late || NoneLate(states, steps)) && 0 <= i < |steps|
      ==> Steps(n, spurious, states[i], steps[i], states[i + 1]) && Asserts(states[i], steps[i], n)
  }

  ghost predicate NoneLate(states: seq<Pool>, steps: seq<Step>)
    requires |steps| <= |states|
  {
    forall i :: 0 <= i < |steps| ==> !Late(states[i], steps[i])
  }

  lemma {:induction false} RunKeepsInv(n: nat, spurious: bool, states: seq<Pool>, steps: seq<Step>, i: nat)
    requires IsRun(n, spurious, states, steps) && (n != 1 || !spurious) && i <= |steps|
    ensures Inv(states[i], n)
  {
    if i == 0 {
      FreshInv(n);
    } else {
      RunKeepsInv(n, spurious, states, steps, i - 1);
      assert Steps(n, spurious, states[i - 1], steps[i - 1], states[i - 1 + 1]);
      StepKeepsInv(states[i - 1], steps[i - 1], n);
    }
  }

  /** What must hold when `run` returns: every job pushed so far has run, once, and no other. */
  ghost predicate AllDone(s: Pool) {
    s.work == [] && s.working == 0 && s.done == multiset(s.pushed) && InFlight(s) == multiset{}
  }

  lemma {:induction false} KeptEach(s: Pool)
    requires JobsKept(s)
    ensures multiset(s.pushed) == multiset(s.work) + InFlight(s) + s.done
  {
    assert multiset(s.begun + s.work) == multiset(s.begun) + multiset(s.work);
    assert multiset(s.work) + InFlight(s) + s.done == InFlight(s) + s.done + multiset(s.work);
  }

  lemma {:induction false} NothingLeft(s: Pool)
    requires JobsKept(s) && s.work == [] && s.working == 0
    ensures AllDone(s)
  {
    EmptyTail(s.begun);
    assert InFlight(s) == multiset{};
    assert multiset{} + s.done == s.done;
  }

  /** `run` is left only with its last asserts met. */
  lemma {:induction false} LeavesRun(s: Pool, step: Step, n: nat)
    requires CallerKept(s) && Enabled(s, step) && Asserts(s, step, n)
    requires s.running && !Next(s, step, n).running
    ensures Next(s, step, n).work == [] && Next(s, step, n).working == 0
  {
  }

  /** Each job pushed is in the queue, in flight or done, as often as it was pushed; `_working`
      counts the threads inside a job; and a step that takes the caller out of `run` leaves
      nothing queued or in flight. */
  lemma {:induction false} RunsEveryJobOnce(n: nat, spurious: bool, states: seq<Pool>, steps: seq<Step>, i: nat)
    requires IsRun(n, spurious, states, steps) && (n != 1 || !spurious) && i < |steps|
    ensures var s := states[i + 1];
            && s.pushed == s.begun + s.work
            && multiset(s.pushed) == multiset(s.work) + InFlight(s) + s.done
            && s.working == |InFlight(s)|
            && (s.caller.Completing? ==> s.working > 0 || s.caller.notified)
            && (states[i].running && !s.running ==>
                  s.work == [] && s.working == 0 && InFlight(s) == multiset{} && s.done == multiset(s.pushed))
  {
    RunKeepsInv(n, spurious, states, steps, i);
    RunKeepsInv(n, spurious, states, steps, i + 1);
    var s, s' := states[i], states[i + 1];
    assert Steps(n, spurious, s, steps[i], s');
    StepKeepsInv(s, steps[i], n);
    KeptEach(s');
    if s.running && !s'.running {
      LeavesRun(s, steps[i], n);
      NothingLeft(s');
    }
  }

  // ---------- exactly when no assert fires ----------

  /** Two jobs and one worker that wakes unnotified: the worker takes the second job, and the
      caller, who does not wait for workers it did not notify, leaves `run` meanwhile. */
  function LoneWorkerSteps(): seq<Step> {
    [WorkerStarts(0), Push(1), Push(2), Run, WorkerWakes(0), CallerDone]
  }

  function LoneWorkerStates(): seq<Pool> {
    [Pool([], 0, false, false, [Starting], Idle, [], [], multiset{}),
     Pool([], 0, false, false, [Waiting(false)], Idle, [], [], multiset{}),
     Pool([1], 0, false, false, [Waiting(false)], Idle, [1], [], multiset{}),
     Pool([1, 2], 0, false, false, [Waiting(false)], Idle, [1, 2], [], multiset{}),
     Pool([2], 1, true, false, [Waiting(false)], Working(1, false), [1, 2], [1], multiset{}),
     Pool([], 2, true, false, [Busy(2)], Working(1, false), [1, 2], [1, 2], multiset{}),
     Pool([], 1, false, false, [Busy(2)], Idle, [1, 2], [1, 2], multiset{1})]
  }

  lemma {:induction false} LoneWorkerStep(i: nat)
    requires i < 6
    ensures Steps(1, true, LoneWorkerStates()[i], LoneWorkerSteps()[i], LoneWorkerStates()[i + 1])
  {
    var s, s' := LoneWorkerStates()[i], LoneWorkerStates()[i + 1];
    assert s.workers == [s.workers[0]];
    if i == 0 {
      assert [Starting][0 := Waiting(false)] == [Waiting(false)];
    } else if i == 4 {
      assert [Waiting(false)][0 := Busy(2)] == [Busy(2)];
    }
  }

  lemma {:induction false} LoneWorkerFails(late: bool)
    ensures !AlwaysAsserts(1, true, late)
  {
    var states, steps := LoneWorkerStates(), LoneWorkerSteps();
    forall i | 0 <= i < |steps| ensures Steps(1, true, states[i], steps[i], states[i + 1]) {
      LoneWorkerStep(i);
    }
    assert StartWorkers(1) == [Starting];
    assert IsRun(1, true, states, steps);
    assert NoneLate(states, steps);
    LoneWorkerStep(5);
    assert 0 <= 5 < |steps| && !Asserts(states[5], steps[5], 1);
  }

  /** The workers while they end, of which the first k have. */
  function Ending(n: nat, k: nat): (r: seq<Worker>)
    ensures |r| == n && forall i :: 0 <= i < n ==> r[i] == if i < k then Ended else Starting
  {
    if n == 0 then [] else Ending(n - 1, k) + [if n - 1 < k then Ended else Starting]
  }

  /** A pool that is stopped before its workers have taken the lock, and pushed to afterwards. */
  function LateStep(n: nat, i: nat): Step {
    if i == 0 then Stop
    else if i == 1 then Notify
    else if i < n + 2 then WorkerStarts(i - 2)
    else if i == n + 2 then Join
    else Push(0)
  }

  function LateState(n: nat, i: nat): Pool {
    if i == 0 then Fresh(n)
    else if i == 1 then Pool([], 0, false, true, StartWorkers(n), Stopping, [], [], multiset{})
    else if i < n + 3 then Pool([], 0, false, true, Ending(n, i - 2), Joining, [], [], multiset{})
    else if i == n + 3 then Pool([], 0, false, true, [], Idle, [], [], multiset{})
    else Pool([0], 0, false, true, [], Idle, [0], [], multiset{})
  }

  lemma {:induction false} NoneEnding(n: nat)
    ensures NotifyAll(StartWorkers(n)) == Ending(n, 0)
  {
  }

  lemma {:induction false} OneMoreEnded(n: nat, k: nat)
    requires k < n
    ensures Ending(n, k)[k := Ended] == Ending(n, k + 1)
  {
  }

  lemma {:induction false} LateStepTaken(n: nat, i: nat)
    requires i < n + 4
    ensures Steps(n, false, LateState(n, i), LateStep(n, i), LateState(n, i + 1))
  {
    if i == 1 {
      NoneEnding(n);
    } else if 2 <= i < n + 2 {
      OneMoreEnded(n, i - 2);
    }
  }

  lemma {:induction false} LatePushFails(n: nat, spurious: bool)
    ensures !AlwaysAsserts(n, spurious, true)
  {
    var states := seq(n + 5, i requires 0 <= i => LateState(n, i));
    var steps := seq(n + 4, i requires 0 <= i => LateStep(n, i));
    forall i | 0 <= i < |steps| ensures Steps(n, spurious, states[i], steps[i], states[i + 1]) {
      LateStepTaken(n, i);
    }
    assert IsRun(n, spurious, states, steps);
    LateStepTaken(n, n + 3);
    assert 0 <= n + 3 < |steps| && !Asserts(states[n + 3], steps[n + 3], n);
  }

  /** No run of any length trips an assert, if and only if there is not exactly one worker or
      `_cond` never wakes a thread that was not notified, and no work is pushed after `stop`. */
  lemma {:induction false} SafeIff(n: nat, spurious: bool, late: bool)
    ensures AlwaysAsserts(n, spurious, late) <==> (n != 1 || !spurious) && !late
  {
    if late {
      LatePushFails(n, spurious);
    } else if n != 1 || !spurious {
      forall states, steps, i | IsRun(n, spurious, states, steps) && NoneLate(states, steps) && 0 <= i < |steps|
        ensures Steps(n, spurious, states[i], steps[i], states[i + 1]) && Asserts(states[i], steps[i], n)
      {
        RunKeepsInv(n, spurious, states, steps, i);
        assert Steps(n, spurious, states[i], steps[i], states[i + 1]);
        StepKeepsInv(states[i], steps[i], n);
      }
    } else {
      LoneWorkerFails(late);
    }
  }

  // ---------- progress ----------

  function WorkerRank(w: Worker): nat {
    match w
    case Starting => 2
    case Waiting(notified) => if notified then 2 else 1
    case Busy(_) => 3
    case Ended => 0
  }

  function WorkersRank(workers: seq<Worker>): nat {
    if workers == [] then 0
    else WorkersRank(workers[..|workers| - 1]) + WorkerRank(workers[|workers| - 1])
  }

  function CallerRank(s: Pool): nat {
    match s.caller
    case Idle => 0
    case Working(_, _) => 3
    case Completing(notified) => if notified then 2 else 1
    case Stopping => 2 + |s.workers|
    case Joining => 1
  }

  /** How many steps there can be before the caller is back, at most. */
  function Rank(s: Pool): nat {
    4 * |s.work| + WorkersRank(s.workers) + CallerRank(s)
  }

  /** A step of a thread inside the pool, not a new call. */
  predicate Internal(step: Step) {
    !(step.Push? || step.Run? || step.Stop? || step.Start?)
  }

  /** A step that a thread inside the pool takes of its own or because it was notified. */
  predicate Productive(s: Pool, step: Step) {
    Enabled(s, step) &&
    match step
    case WorkerWakes(i) => s.workers[i].notified
    case CallerWakes => s.caller.notified
    case _ => Internal(step)
  }

  lemma {:induction false} RankUpdate(workers: seq<Worker>, i: nat, w: Worker)
    requires i < |workers|
    ensures WorkersRank(workers[i := w]) + WorkerRank(workers[i]) == WorkersRank(workers) + WorkerRank(w)
  {
    var last := |workers| - 1;
    if i < last {
      FrontOfUpdate(workers, i, w);
      RankUpdate(workers[..last], i, w);
    } else {
      assert workers[i := w][..last] == workers[..last];
    }
  }

  lemma {:induction false} RankNotify(workers: seq<Worker>)
    ensures WorkersRank(NotifyAll(workers)) <= WorkersRank(workers) + |workers|
  {
    if workers != [] {
      var last := |workers| - 1;
      RankNotify(workers[..last]);
      Parts(NotifyAll(workers[..last]), [Notified(workers[last])]);
    }
  }

  lemma {:induction false} CallerReturnRank(s: Pool)
    requires s.caller.Working?
    ensures Rank(CallerReturns(s)) < Rank(s)
  {
    assert CallerReturns(s).workers == s.workers;
  }

  lemma {:induction false} NotifyRank(s: Pool)
    requires s.caller.Stopping?
    ensures Rank(s.(workers := NotifyAll(s.workers), caller := Joining)) < Rank(s)
  {
    RankNotify(s.workers);
  }

  lemma {:induction false} CallerRankDrops(s: Pool, step: Step, n: nat)
    requires Productive(s, step) && ByCaller(step) && CallerKept(s)
    ensures Rank(Next(s, step, n)) < Rank(s)
  {
    match step
    case CallerDone => CallerReturnRank(s);
    case Notify => NotifyRank(s);
    case CallerWakes =>
    case Join =>
  }

  lemma {:induction false} LoopRank(s: Pool, i: nat)
    requires i < |s.workers| && s.workers[i] != Ended && s.workers[i] != Waiting(false)
    ensures Rank(WorkerLoop(s, i)) < Rank(s) && Rank(WorkerWaits(s, i)) < Rank(s)
    ensures s.workers[i].Busy? ==> Rank(WorkerLoop(s, i)) < Rank(s) - 1
  {
    RankUpdate(s.workers, i, WorkerLoop(s, i).workers[i]);
    RankUpdate(s.workers, i, WorkerWaits(s, i).workers[i]);
  }

  lemma {:induction false} FinishRank(s: Pool, job: Job)
    ensures Rank(Finish(s, job)) <= Rank(s) + 1
  {
  }

  /** Every productive step brings the caller nearer to its return. */
  lemma {:induction false} RankDrops(s: Pool, step: Step, n: nat)
    requires Inv(s, n) && Productive(s, step)
    ensures Rank(Next(s, step, n)) < Rank(s)
  {
    match step
    case WorkerStarts(i) => LoopRank(s, i);
    case WorkerWakes(i) => LoopRank(s, i);
    case WorkerDone(i) =>
      FinishRank(s, s.workers[i].job);
      LoopRank(Finish(s, s.workers[i].job), i);
    case _ => CallerRankDrops(s, step, n);
  }

  /** While the caller is in `run` or `stop`, some thread can go on without a spurious wake. */
  lemma {:induction false} NeverStuck(s: Pool, n: nat) returns (step: Step)
    requires Inv(s, n) && !s.caller.Idle?
    ensures Productive(s, step)
  {
    match s.caller
    case Working(_, _) => step := CallerDone;
    case Completing(notified) =>
      if notified {
        step := CallerWakes;
      } else {
        assert InFlight(s) == Jobs(s.workers);
        var i := BusyWorker(s.workers);
        step := WorkerDone(i);
      }
    case Stopping => step := Notify;
    case Joining =>
      if i :| 0 <= i < |s.workers| && !s.workers[i].Ended? {
        if s.workers[i].Busy? {
          FlightSize(s);
        }
        step := if s.workers[i].Starting? then WorkerStarts(i) else WorkerWakes(i);
      } else {
        step := Join;
      }
  }

  lemma {:induction false} WakeRank(s: Pool, i: nat)
    requires i < |s.workers| && s.workers[i].Waiting?
    ensures Rank(WorkerLoop(s, i)) <= Rank(s)
  {
    RankUpdate(s.workers, i, WorkerLoop(s, i).workers[i]);
  }

  /** A wake that nobody asked for does not take the caller further from its return. */
  lemma {:induction false} RankNeverRises(s: Pool, step: Step, n: nat)
    requires Inv(s, n) && Enabled(s, step) && Internal(step)
    ensures Rank(Next(s, step, n)) <= Rank(s)
  {
    if Productive(s, step) {
      RankDrops(s, step, n);
    } else if step.WorkerWakes? {
      WakeRank(s, step.i);
    }
  }

  /** How many of the first k steps are productive. */
  function Productives(states: seq<Pool>, steps: seq<Step>, k: nat): nat
    requires k <= |steps| <= |states|
  {
    if k == 0 then 0 else Productives(states, steps, k - 1) + if Productive(states[k - 1], steps[k - 1]) then 1 else 0
  }

  /** A thread wakes although nobody notified it. */
  predicate WakesAlone(s: Pool, step: Step) {
    match step
    case WorkerWakes(i) => i < |s.workers| && s.workers[i] == Waiting(false)
    case CallerWakes => s.caller == Completing(false)
    case _ => false
  }

  lemma {:induction false} ProductiveIff(s: Pool, step: Step)
    requires Enabled(s, step) && Internal(step)
    ensures Productive(s, step) <==> !WakesAlone(s, step)
  {
  }

  ghost function NotAlone(states: seq<Pool>, steps: seq<Step>, k: nat): set<nat>
    requires k <= |steps| <= |states|
  {
    set i: nat | i < k && !WakesAlone(states[i], steps[i])
  }

  lemma {:induction false} NotAloneNext(states: seq<Pool>, steps: seq<Step>, k: nat)
    requires k < |steps| <= |states|
    ensures |NotAlone(states, steps, k + 1)| ==
              |NotAlone(states, steps, k)| + if WakesAlone(states[k], steps[k]) then 0 else 1
  {
    assert NotAlone(states, steps, k + 1) ==
           NotAlone(states, steps, k) + if WakesAlone(states[k], steps[k]) then {} else {k};
  }

  lemma {:induction false} ProductiveAt(n: nat, spurious: bool, states: seq<Pool>, steps: seq<Step>, i: nat)
    requires IsInternalRun(n, spurious, states, steps) && i < |steps|
    ensures Productive(states[i], steps[i]) <==> !WakesAlone(states[i], steps[i])
  {
    assert Steps(n, spurious, states[i], steps[i], states[i + 1]);
    ProductiveIff(states[i], steps[i]);
  }

  ghost predicate AreProductive(states: seq<Pool>, steps: seq<Step>)
    requires |steps| <= |states|
  {
    forall i :: 0 <= i < |steps| ==> (Productive(states[i], steps[i]) <==> !WakesAlone(states[i], steps[i]))
  }

  lemma {:induction false} CountProductives(states: seq<Pool>, steps: seq<Step>, k: nat)
    requires k <= |steps| <= |states| && AreProductive(states, steps)
    ensures Productives(states, steps, k) == |NotAlone(states, steps, k)|
  {
    if k > 0 {
      CountProductives(states, steps, k - 1);
      NotAloneNext(states, steps, k - 1);
    }
  }

  /** It counts them, and those are all steps of a thread inside the pool but wakes without a notification. */
  lemma {:induction false} ProductivesCount(n: nat, spurious: bool, states: seq<Pool>, steps: seq<Step>, k: nat)
    requires IsInternalRun(n, spurious, states, steps) && k <= |steps|
    ensures Productives(states, steps, k) == |NotAlone(states, steps, k)|
  {
    forall i | 0 <= i < |steps| ensures Productive(states[i], steps[i]) <==> !WakesAlone(states[i], steps[i]) {
      ProductiveAt(n, spurious, states, steps, i);
    }
    CountProductives(states, steps, k);
  }

  lemma {:induction false} StepTowardsReturn(s: Pool, step: Step, s': Pool, n: nat, spurious: bool)
    requires Inv(s, n) && Steps(n, spurious, s, step, s') && Internal(step) && (n != 1 || !spurious)
    ensures Inv(s', n) && Rank(s') + (if Productive(s, step) then 1 else 0) <= Rank(s)
  {
    StepKeepsInv(s, step, n);
    RankNeverRises(s, step, n);
    if Productive(s, step) {
      RankDrops(s, step, n);
    }
  }

  lemma {:induction false} CanGoOn(s: Pool, n: nat)
    requires Inv(s, n)
    ensures !s.caller.Idle? ==> exists step :: Productive(s, step)
  {
    if !s.caller.Idle? {
      var step := NeverStuck(s, n);
    }
  }

  /** Steps of the threads inside the pool, from any state on. */
  ghost predicate IsInternalRun(n: nat, spurious: bool, states: seq<Pool>, steps: seq<Step>) {
    && |states| == |steps| + 1
    && forall i :: 0 <= i < |steps| ==> Internal(steps[i]) && Steps(n, spurious, states[i], steps[i], states[i + 1])
  }

  /** The invariant and the rank of a state, wrapped. */
  ghost predicate Ranked(s: Pool, n: nat, rank: nat, wraps: nat) {
    if wraps == 0 then Inv(s, n) && rank == Rank(s) else Ranked(s, n, rank, wraps - 1)
  }

  lemma {:induction false} OpenRanked(s: Pool, n: nat, rank: nat, wraps: nat)
    ensures Ranked(s, n, rank, wraps) <==> Inv(s, n) && rank == Rank(s)
  {
    if wraps > 0 {
      OpenRanked(s, n, rank, wraps - 1);
    }
  }

  lemma {:induction false} InternalStep(n: nat, spurious: bool, states: seq<Pool>, steps: seq<Step>, k: nat, rank: nat)
    returns (rank': nat)
    requires IsInternalRun(n, spurious, states, steps) && k < |steps| && (n != 1 || !spurious)
    requires Ranked(states[k], n, rank, WRAPS)
    ensures Ranked(states[k + 1], n, rank', WRAPS)
    ensures rank' + (if Productive(states[k], steps[k]) then 1 else 0) <= rank
  {
    OpenRanked(states[k], n, rank, WRAPS);
    StepTowardsReturn(states[k], steps[k], states[k + 1], n, spurious);
    rank' := Rank(states[k + 1]);
    OpenRanked(states[k + 1], n, rank', WRAPS);
  }

  lemma {:induction false} RankSoFar(n: nat, spurious: bool, states: seq<Pool>, steps: seq<Step>, k: nat, rank0: nat)
    returns (rank: nat)
    requires IsInternalRun(n, spurious, states, steps) && k <= |steps| && (n != 1 || !spurious)
    requires Ranked(states[0], n, rank0, WRAPS)
    ensures Ranked(states[k], n, rank, WRAPS) && Productives(states, steps, k) + rank <= rank0
  {
    rank := rank0;
    if k > 0 {
      rank := RankSoFar(n, spurious, states, steps, k - 1, rank0);
      rank := InternalStep(n, spurious, states, steps, k - 1, rank);
    }
  }

  /** From any state of any run on, whatever the schedule and however many spurious wakes there
      are, the threads take no more productive steps than the rank of the state says before the
      caller is back from `run` or `stop`; and until it is back, some thread can take one. */
  lemma {:induction false} CallerComesBack(n: nat, spurious: bool, states: seq<Pool>, steps: seq<Step>, k: nat)
    requires IsInternalRun(n, spurious, states, steps) && k <= |steps| && Inv(states[0], n) && (n != 1 || !spurious)
    ensures Productives(states, steps, k) <= Rank(states[0])
    ensures !states[k].caller.Idle? ==> exists step :: Productive(states[k], step)
  {
    OpenRanked(states[0], n, Rank(states[0]), WRAPS);
    var rank := RankSoFar(n, spurious, states, steps, k, Rank(states[0]));
    OpenRanked(states[k], n, rank, WRAPS);
    CanGoOn(states[k], n);
  }
}
