/** The worker pool of test.py as a protocol: one main thread, a fixed number of worker
    threads, a FIFO input queue, an output queue and an interrupt flag.

    Every atomic action of a thread is one `Step`; a run is any sequence of enabled steps, so
    all interleavings and all moments of interruption are covered.
 */
module WorkerPool {

  datatype Kind = Suite | Example | PyExample

  /** A Job object. `id` stands for the identity of the object; `xmlPassed` says whether the
      XML report written by a test suite holds the verdict PASS or SKIP. */
  datatype Job = Job(id: nat, name: string, skipReason: string, kind: Kind,
                     isBreak: bool, isSkip: bool, returncode: int, xmlPassed: bool)

  /** Where a worker stands in the loop of worker_thread.run. */
  datatype Worker =
    | Waiting             // blocked in input_queue.get()
    | Taken(job: Job)     // has a job, is_break not tested yet
    | Live(job: Job)      // is_break was false, thread_exit not tested yet
    | Cleared(job: Job)   // thread_exit was false: will skip or launch the job
    | Finished(job: Job)  // about to put the job on the output queue
    | Exited(job: Job)    // returned from run(), on this job

  datatype Config = Config(jobs: seq<Job>, processors: nat)

  datatype State = State(todo: seq<Job>, inputQueue: seq<Job>, workers: seq<Worker>,
                         outputQueue: seq<Job>, collected: seq<Job>,
                         threadExit: bool, joined: nat)

  datatype Step =
    | Dispatch
    | Take(w: nat)
    | TestBreak(w: nat)
    | TestExit(w: nat)
    | Launch(w: nat, returncode: int, xmlPassed: bool)
    | Put(w: nat)
    | Interrupt
    | Collect
    | Join

  function Sentinel(id: nat): Job {
    Job(id, "", "", Suite, true, false, 0, false)
  }

  /** Everything the main thread puts on the input queue, in order: the jobs, then one
      sentinel per worker. */
  function Program(c: Config): (program: seq<Job>)
    ensures |program| == |c.jobs| + c.processors
    ensures program[..|c.jobs|] == c.jobs
    ensures forall i :: |c.jobs| <= i < |program| ==> program[i] == Sentinel(i)
  {
    c.jobs + seq(c.processors, (i: nat) => Sentinel(|c.jobs| + i))
  }

  ghost predicate ValidConfig(c: Config) {
    forall i :: 0 <= i < |c.jobs| ==> c.jobs[i].id == i && !c.jobs[i].isBreak
  }

  function Init(c: Config): State {
    State(Program(c), [], seq(c.processors, i => Waiting), [], [], false, 0)
  }

  /** The main thread's program counter is implicit: it dispatches while `todo` is not empty,
      then collects one result per job, then joins the workers in order. */
  predicate Enabled(c: Config, s: State, step: Step) {
    match step
    case Dispatch => s.todo != []
    case Take(w) => w < |s.workers| && s.workers[w].Waiting? && s.inputQueue != []
    case TestBreak(w) => w < |s.workers| && s.workers[w].Taken?
    case TestExit(w) => w < |s.workers| && s.workers[w].Live?
    case Launch(w, _, _) => w < |s.workers| && s.workers[w].Cleared?
    case Put(w) => w < |s.workers| && s.workers[w].Finished?
    case Interrupt => true
    case Collect => s.todo == [] && |s.collected| < |c.jobs| && s.outputQueue != []
    case Join =>
      && s.todo == [] && |s.collected| >= |c.jobs|
      && s.joined < |s.workers| && s.workers[s.joined].Exited?
  }

  function Next(c: Config, s: State, step: Step): State
    requires Enabled(c, s, step)
  {
    match step
    case Dispatch =>
      s.(todo := s.todo[1..], inputQueue := s.inputQueue + [s.todo[0]])
    case Take(w) =>
      s.(inputQueue := s.inputQueue[1..], workers := s.workers[w := Taken(s.inputQueue[0])])
    case TestBreak(w) =>
      var job := s.workers[w].job;
      s.(workers := s.workers[w := if job.isBreak then Exited(job) else Live(job)])
    case TestExit(w) =>
      var job := s.workers[w].job;
      s.(workers := s.workers[w := if s.threadExit then Finished(job.(isBreak := true)) else Cleared(job)])
    case Launch(w, returncode, xmlPassed) =>
      var job := s.workers[w].job;
      s.(workers := s.workers[w := Finished(
        if job.isSkip then job else job.(returncode := returncode, xmlPassed := xmlPassed))])
    case Put(w) =>
      s.(workers := s.workers[w := Waiting], outputQueue := s.outputQueue + [s.workers[w].job])
    case Interrupt =>
      s.(threadExit := true)
    case Collect =>
      s.(outputQueue := s.outputQueue[1..], collected := s.collected + [s.outputQueue[0]])
    case Join =>
      s.(joined := s.joined + 1)
  }

  /** The main thread has left its last join. */
  predicate Final(c: Config, s: State) {
    s.todo == [] && |s.collected| >= |c.jobs| && s.joined >= |s.workers|
  }

  /** `steps` leads from `s` to `t`. */
  predicate Executes(c: Config, s: State, steps: seq<Step>, t: State)
    decreases |steps|
  {
    if steps == [] then s == t
    else Enabled(c, s, steps[0]) && Executes(c, Next(c, s, steps[0]), steps[1..], t)
  }

  // ----- counting workers and jobs

  /** A question about one worker; `n` below is the number of real jobs. */
  datatype Query = HoldsJob | HoldsSentinel | HoldsId(id: nat) | IsCleared

  predicate Matches(n: nat, q: Query, w: Worker) {
    match q
    case HoldsJob => !w.Waiting? && w.job.id < n
    case HoldsSentinel => !w.Waiting? && w.job.id >= n
    case HoldsId(id) => !w.Waiting? && w.job.id == id
    case IsCleared => w.Cleared?
  }

  function Bit(b: bool): nat { if b then 1 else 0 }

  /** How many workers match `q`. */
  function Count(n: nat, q: Query, workers: seq<Worker>): nat {
    if workers == [] then 0 else Bit(Matches(n, q, workers[0])) + Count(n, q, workers[1..])
  }

  lemma {:induction false} CountUpdate(n: nat, q: Query, workers: seq<Worker>, w: nat, x: Worker)
    requires w < |workers|
    ensures Count(n, q, workers[w := x]) + Bit(Matches(n, q, workers[w]))
         == Count(n, q, workers) + Bit(Matches(n, q, x))
  {
    if w == 0 {
      assert workers[w := x][1..] == workers[1..];
    } else {
      assert workers[w := x][1..] == workers[1..][w - 1 := x];
      CountUpdate(n, q, workers[1..], w - 1, x);
    }
  }

  lemma {:induction false} CountBounds(n: nat, q: Query, workers: seq<Worker>)
    ensures Count(n, q, workers) <= |workers|
    ensures Count(n, q, workers) == |workers| <==> forall w :: 0 <= w < |workers| ==> Matches(n, q, workers[w])
    ensures Count(n, q, workers) == 0 <==> forall w :: 0 <= w < |workers| ==> !Matches(n, q, workers[w])
  {
    if workers == [] {
    } else {
      CountBounds(n, q, workers[1..]);
      assert forall w :: 1 <= w < |workers| ==> workers[w] == workers[1..][w - 1];
    }
  }

  /** How often the job object `id` occurs in a queue. */
  function Copies(id: nat, jobs: seq<Job>): nat {
    if jobs == [] then 0 else Bit(jobs[0].id == id) + Copies(id, jobs[1..])
  }

  lemma {:induction false} CopiesAppend(id: nat, a: seq<Job>, b: seq<Job>)
    ensures Copies(id, a + b) == Copies(id, a) + Copies(id, b)
  {
    if a == [] {
      assert a + b == b;
    } else {
      assert (a + b)[1..] == a[1..] + b;
      CopiesAppend(id, a[1..], b);
    }
  }

  lemma CopiesHead(id: nat, jobs: seq<Job>)
    requires jobs != []
    ensures Copies(id, jobs) == Bit(jobs[0].id == id) + Copies(id, jobs[1..])
  {
  }

  lemma CopiesSnoc(id: nat, jobs: seq<Job>, job: Job)
    ensures Copies(id, jobs + [job]) == Copies(id, jobs) + Bit(job.id == id)
  {
    CopiesAppend(id, jobs, [job]);
  }

  // ----- the invariant

  /** What may come back for `job`: the job marked as interrupted (only once the flag is set),
      the untouched job if it is to be skipped, or else the job with the result of its run. */
  predicate IsOutcome(job: Job, threadExit: bool, result: Job) {
    || (threadExit && result == job.(isBreak := true))
    || (job.isSkip && result == job)
    || (!job.isSkip && result == job.(returncode := result.returncode, xmlPassed := result.xmlPassed))
  }

  predicate IsResult(c: Config, threadExit: bool, result: Job) {
    result.id < |c.jobs| && IsOutcome(c.jobs[result.id], threadExit, result)
  }

  predicate ValidWorker(c: Config, threadExit: bool, w: Worker) {
    match w
    case Waiting => true
    case Taken(job) => job.id < |c.jobs| + c.processors && job == Program(c)[job.id]
    case Live(job) => job.id < |c.jobs| && job == c.jobs[job.id]
    case Cleared(job) => job.id < |c.jobs| && job == c.jobs[job.id]
    case Finished(job) => IsResult(c, threadExit, job)
    case Exited(job) => |c.jobs| <= job.id < |c.jobs| + c.processors && job == Sentinel(job.id)
  }

  /** How many jobs and sentinels have been taken from the input queue. */
  function TakenCount(c: Config, s: State): int {
    |c.jobs| + c.processors - |s.inputQueue| - |s.todo|
  }

  /** What is queued or still to be dispatched is a suffix of the program. */
  ghost predicate QueueInv(c: Config, s: State) {
    && 0 <= TakenCount(c, s)
    && s.inputQueue + s.todo == Program(c)[TakenCount(c, s)..]
  }

  /** Every worker is in a legal phase; only results of real jobs come out of the workers. */
  ghost predicate WorkersInv(c: Config, s: State) {
    && |s.workers| == c.processors
    && (forall w :: 0 <= w < |s.workers| ==> ValidWorker(c, s.threadExit, s.workers[w]))
    && (forall i :: 0 <= i < |s.outputQueue| ==> IsResult(c, s.threadExit, s.outputQueue[i]))
    && (forall i :: 0 <= i < |s.collected| ==> IsResult(c, s.threadExit, s.collected[i]))
    && s.joined <= |s.workers|
    && (forall w :: 0 <= w < s.joined ==> s.workers[w].Exited?)
  }

  /** The real jobs and the sentinels taken so far are all accounted for. */
  predicate CountsInv(c: Config, s: State) {
    var n, k := |c.jobs|, TakenCount(c, s);
    && Count(n, HoldsJob, s.workers) + |s.outputQueue| + |s.collected| == (if k < n then k else n)
    && Count(n, HoldsSentinel, s.workers) == (if k < n then 0 else k - n)
  }

  /** In how many places the job object `id` is. */
  function Places(c: Config, s: State, id: nat): nat {
    Copies(id, s.inputQueue + s.todo) + Count(|c.jobs|, HoldsId(id), s.workers)
    + Copies(id, s.outputQueue) + Copies(id, s.collected)
  }

  /** Every job object is in exactly one place, and there are no others. */
  ghost predicate PlacesInv(c: Config, s: State) {
    forall id: nat :: Places(c, s, id) == Bit(id < |c.jobs| + c.processors)
  }

  ghost predicate Inv(c: Config, s: State) {
    ValidConfig(c) && QueueInv(c, s) && WorkersInv(c, s) && CountsInv(c, s) && PlacesInv(c, s)
  }

  lemma {:induction false} ProgramCopies(program: seq<Job>, id: nat, from: nat)
    requires forall i :: 0 <= i < |program| ==> program[i].id == from + i
    ensures Copies(id, program) == Bit(from <= id < from + |program|)
  {
    if program == [] {
    } else {
      ProgramCopies(program[1..], id, from + 1);
    }
  }

  lemma InitInv(c: Config)
    requires ValidConfig(c)
    ensures Inv(c, Init(c))
  {
    var s, n := Init(c), |c.jobs|;
    CountBounds(n, HoldsJob, s.workers);
    CountBounds(n, HoldsSentinel, s.workers);
    hide Program, Count, Places;
    assert s.inputQueue + s.todo == Program(c)[0..];
    forall id: nat ensures Places(c, s, id) == Bit(id < n + c.processors) {
      InitPlaces(c, id);
    }
  }

  lemma InitPlaces(c: Config, id: nat)
    requires ValidConfig(c)
    ensures Places(c, Init(c), id) == Bit(id < |c.jobs| + c.processors)
  {
    CountBounds(|c.jobs|, HoldsId(id), Init(c).workers);
    ProgramIds(c);
    ProgramCopies(Program(c), id, 0);
    assert Init(c).inputQueue + Init(c).todo == Program(c);
  }

  /** The head of the input queue is the next object of the program. */
  lemma TakeHead(c: Config, s: State)
    requires ValidConfig(c) && QueueInv(c, s) && s.inputQueue != []
    ensures TakenCount(c, s) < |c.jobs| + c.processors
    ensures s.inputQueue[0] == Program(c)[TakenCount(c, s)] && s.inputQueue[0].id == TakenCount(c, s)
  {
  }

  lemma StepQueue(c: Config, s: State, step: Step)
    requires ValidConfig(c) && QueueInv(c, s) && Enabled(c, s, step)
    ensures QueueInv(c, Next(c, s, step))
  {
    hide Program;
    var t := Next(c, s, step);
    if step.Dispatch? {
      assert t.inputQueue + t.todo == s.inputQueue + s.todo;
    } else if step.Take? {
      TakeHead(c, s);
      var program, k := Program(c), TakenCount(c, s);
      assert t.inputQueue + t.todo == (s.inputQueue + s.todo)[1..];
      assert program[k..][1..] == program[k + 1..];
    } else {
      assert t.inputQueue == s.inputQueue && t.todo == s.todo;
    }
  }

  /** The next phase of a worker is legal, too. */
  lemma NextPhase(c: Config, s: State, step: Step)
    requires ValidConfig(c) && QueueInv(c, s) && WorkersInv(c, s) && Enabled(c, s, step)
    requires step.Take? || step.TestBreak? || step.TestExit? || step.Launch? || step.Put?
    ensures ValidWorker(c, s.threadExit, Next(c, s, step).workers[step.w])
    ensures step.Put? ==> IsResult(c, s.threadExit, s.workers[step.w].job)
  {
    hide Program;
    assert step.Take? || ValidWorker(c, s.threadExit, s.workers[step.w]);
    if step.Take? { TakeHead(c, s); }
  }

  /** An interrupt makes no phase and no result illegal. */
  lemma InterruptKeeps(c: Config, threadExit: bool)
    ensures forall w :: ValidWorker(c, threadExit, w) ==> ValidWorker(c, true, w)
    ensures forall job :: IsResult(c, threadExit, job) ==> IsResult(c, true, job)
  {
    hide Program;
  }

  lemma StepWorkers(c: Config, s: State, step: Step)
    requires ValidConfig(c) && QueueInv(c, s) && WorkersInv(c, s) && Enabled(c, s, step)
    ensures WorkersInv(c, Next(c, s, step))
  {
    hide Program, ValidWorker, IsResult;
    InterruptKeeps(c, s.threadExit);
    if step.Take? || step.TestBreak? || step.TestExit? || step.Launch? || step.Put? {
      NextPhase(c, s, step);
    }
  }

  lemma StepCounts(c: Config, s: State, step: Step)
    requires ValidConfig(c) && QueueInv(c, s) && WorkersInv(c, s) && CountsInv(c, s) && Enabled(c, s, step)
    ensures CountsInv(c, Next(c, s, step))
  {
    match step
    case Take(w) => TakeCounts(c, s, w);
    case TestBreak(w) => SameCounts(c, s, Next(c, s, step), w);
    case TestExit(w) => SameCounts(c, s, Next(c, s, step), w);
    case Launch(w, _, _) => SameCounts(c, s, Next(c, s, step), w);
    case Put(w) => PutCounts(c, s, w);
    case _ =>
  }

  lemma TakeCounts(c: Config, s: State, w: nat)
    requires ValidConfig(c) && QueueInv(c, s) && WorkersInv(c, s) && CountsInv(c, s) && Enabled(c, s, Take(w))
    ensures CountsInv(c, Next(c, s, Take(w)))
  {
    hide Program, Count;
    TakeHead(c, s);
    UpdateCounts(c, s, Next(c, s, Take(w)), w);
  }

  lemma PutCounts(c: Config, s: State, w: nat)
    requires ValidConfig(c) && QueueInv(c, s) && WorkersInv(c, s) && CountsInv(c, s) && Enabled(c, s, Put(w))
    ensures CountsInv(c, Next(c, s, Put(w)))
  {
    hide Count, IsOutcome;
    NextPhase(c, s, Put(w));
    UpdateCounts(c, s, Next(c, s, Put(w)), w);
  }

  /** A worker moves on with the job it holds. */
  lemma SameCounts(c: Config, s: State, t: State, w: nat)
    requires w < |s.workers| && !s.workers[w].Waiting? && CountsInv(c, s)
    requires t == s.(workers := t.workers) && |t.workers| == |s.workers| && t.workers == s.workers[w := t.workers[w]]
    requires !t.workers[w].Waiting? && t.workers[w].job.id == s.workers[w].job.id
    ensures CountsInv(c, t)
  {
    hide Count;
    UpdateCounts(c, s, t, w);
  }

  lemma UpdateCounts(c: Config, s: State, t: State, w: nat)
    requires w < |s.workers| == |t.workers| && t.workers == s.workers[w := t.workers[w]]
    ensures Count(|c.jobs|, HoldsJob, t.workers) + Bit(Matches(|c.jobs|, HoldsJob, s.workers[w]))
         == Count(|c.jobs|, HoldsJob, s.workers) + Bit(Matches(|c.jobs|, HoldsJob, t.workers[w]))
    ensures Count(|c.jobs|, HoldsSentinel, t.workers) + Bit(Matches(|c.jobs|, HoldsSentinel, s.workers[w]))
         == Count(|c.jobs|, HoldsSentinel, s.workers) + Bit(Matches(|c.jobs|, HoldsSentinel, t.workers[w]))
  {
    CountUpdate(|c.jobs|, HoldsJob, s.workers, w, t.workers[w]);
    CountUpdate(|c.jobs|, HoldsSentinel, s.workers, w, t.workers[w]);
  }

  /** No step creates, loses or duplicates a job object. */
  lemma StepPlaces(c: Config, s: State, step: Step, id: nat)
    requires Enabled(c, s, step)
    ensures Places(c, Next(c, s, step), id) == Places(c, s, id)
  {
    hide Count, Copies;
    var t := Next(c, s, step);
    match step
    case Dispatch =>
      assert t.inputQueue + t.todo == s.inputQueue + s.todo;
    case Take(w) =>
      assert t.inputQueue + t.todo == (s.inputQueue + s.todo)[1..];
      CopiesHead(id, s.inputQueue + s.todo);
      UpdatePlaces(c, s, t, id, w);
    case TestBreak(w) => UpdatePlaces(c, s, t, id, w);
    case TestExit(w) => UpdatePlaces(c, s, t, id, w);
    case Launch(w, _, _) => UpdatePlaces(c, s, t, id, w);
    case Put(w) =>
      UpdatePlaces(c, s, t, id, w);
      CopiesSnoc(id, s.outputQueue, s.workers[w].job);
    case Interrupt =>
    case Collect =>
      CopiesHead(id, s.outputQueue);
      CopiesSnoc(id, s.collected, s.outputQueue[0]);
    case Join =>
  }

  lemma UpdatePlaces(c: Config, s: State, t: State, id: nat, w: nat)
    requires w < |s.workers| == |t.workers| && t.workers == s.workers[w := t.workers[w]]
    ensures Count(|c.jobs|, HoldsId(id), t.workers) + Bit(Matches(|c.jobs|, HoldsId(id), s.workers[w]))
         == Count(|c.jobs|, HoldsId(id), s.workers) + Bit(Matches(|c.jobs|, HoldsId(id), t.workers[w]))
  {
    CountUpdate(|c.jobs|, HoldsId(id), s.workers, w, t.workers[w]);
  }

  lemma StepInv(c: Config, s: State, step: Step)
    requires Inv(c, s) && Enabled(c, s, step)
    ensures Inv(c, Next(c, s, step))
  {
    StepQueue(c, s, step);
    StepWorkers(c, s, step);
    StepCounts(c, s, step);
    forall id: nat ensures Places(c, Next(c, s, step), id) == Bit(id < |c.jobs| + c.processors) {
      StepPlaces(c, s, step, id);
      assert Places(c, s, id) == Bit(id < |c.jobs| + c.processors);
    }
  }

  lemma {:induction false} RunInv(c: Config, s: State, steps: seq<Step>, t: State)
    requires Inv(c, s) && Executes(c, s, steps, t)
    ensures Inv(c, t)
    decreases |steps|
  {
    if steps == [] {
    } else {
      StepInv(c, s, steps[0]);
      RunInv(c, Next(c, s, steps[0]), steps[1..], t);
    }
  }

  // ----- safety: what holds in every reachable state

  ghost predicate Reachable(c: Config, s: State) {
    ValidConfig(c) && exists steps: seq<Step> :: Executes(c, Init(c), steps, s)
  }

  lemma ReachableInv(c: Config, s: State)
    requires Reachable(c, s)
    ensures Inv(c, s)
  {
    var steps: seq<Step> :| Executes(c, Init(c), steps, s);
    InitInv(c);
    RunInv(c, Init(c), steps, s);
  }

  /** Exactly-once delivery: whatever the interleaving, a job object is either not dispatched,
      or queued, or in the hands of one worker that has not exited, or returned, or collected. */
  lemma ExactlyOnce(c: Config, s: State, id: nat)
    requires Reachable(c, s) && id < |c.jobs|
    ensures Copies(id, s.todo) + Copies(id, s.inputQueue) + Count(|c.jobs|, HoldsId(id), s.workers)
            + Copies(id, s.outputQueue) + Copies(id, s.collected) == 1
    ensures forall w :: 0 <= w < |s.workers| && s.workers[w].Exited? ==> !Matches(|c.jobs|, HoldsId(id), s.workers[w])
  {
    ReachableInv(c, s);
    CopiesAppend(id, s.inputQueue, s.todo);
    assert Places(c, s, id) == 1;
    forall w | 0 <= w < |s.workers| && s.workers[w].Exited?
      ensures !Matches(|c.jobs|, HoldsId(id), s.workers[w])
    {
      assert ValidWorker(c, s.threadExit, s.workers[w]);
    }
  }

  /** A worker that has exited did so on a sentinel, after every real job had left the main
      thread and the input queue. */
  lemma ExitOnlyOnSentinel(c: Config, s: State, w: nat)
    requires Reachable(c, s) && w < |s.workers| && s.workers[w].Exited?
    ensures s.workers[w].job.id >= |c.jobs|
    ensures forall id :: 0 <= id < |c.jobs| ==> Copies(id, s.inputQueue) == Copies(id, s.todo) == 0
  {
    hide Count, Places, Copies;
    ReachableInv(c, s);
    assert ValidWorker(c, s.threadExit, s.workers[w]);
    CountBounds(|c.jobs|, HoldsSentinel, s.workers);
    assert Matches(|c.jobs|, HoldsSentinel, s.workers[w]);
    var k := TakenCount(c, s);
    assert k > |c.jobs|;
    ProgramIds(c);
    var left := Program(c)[k..];
    assert forall i :: 0 <= i < |left| ==> left[i] == Program(c)[k + i];
    forall id | 0 <= id < |c.jobs|
      ensures Copies(id, s.inputQueue) == Copies(id, s.todo) == 0
    {
      ProgramCopies(left, id, k);
      CopiesAppend(id, s.inputQueue, s.todo);
    }
  }

  lemma ProgramIds(c: Config)
    requires ValidConfig(c)
    ensures forall i :: 0 <= i < |Program(c)| ==> Program(c)[i].id == i
  {
  }

  /** The two uses of is_break never meet: when a worker tests it, it is set exactly on
      sentinels; when the main thread tests it, the job is a real one that was interrupted. */
  lemma BreakMarksNeverCollide(c: Config, s: State)
    requires Reachable(c, s)
    ensures forall w :: 0 <= w < |s.workers| && s.workers[w].Taken? ==>
      (s.workers[w].job.isBreak <==> s.workers[w].job.id >= |c.jobs|)
    ensures forall i :: 0 <= i < |s.outputQueue| && s.outputQueue[i].isBreak ==>
      s.threadExit && s.outputQueue[i].id < |c.jobs|
      && s.outputQueue[i] == c.jobs[s.outputQueue[i].id].(isBreak := true)
    ensures forall i :: 0 <= i < |s.collected| && s.collected[i].isBreak ==>
      s.threadExit && s.collected[i].id < |c.jobs|
      && s.collected[i] == c.jobs[s.collected[i].id].(isBreak := true)
  {
    ReachableInv(c, s);
    forall w | 0 <= w < |s.workers| && s.workers[w].Taken?
      ensures s.workers[w].job.isBreak <==> s.workers[w].job.id >= |c.jobs|
    {
      var id := s.workers[w].job.id;
      assert ValidWorker(c, s.threadExit, s.workers[w]);
      if id < |c.jobs| { assert Program(c)[id] == Program(c)[..|c.jobs|][id]; }
    }
  }

  /** When the main thread is done, nothing is left in the queues, every worker has consumed
      exactly one sentinel, and each job has come back exactly once, with a legal outcome. */
  lemma CleanShutdown(c: Config, s: State)
    requires Reachable(c, s) && Final(c, s)
    ensures s.inputQueue == [] && s.outputQueue == [] && |s.collected| == |c.jobs|
    ensures forall w :: 0 <= w < |s.workers| ==> s.workers[w].Exited? && s.workers[w].job.id >= |c.jobs|
    ensures forall id :: 0 <= id < |c.jobs| ==> Copies(id, s.collected) == 1
    ensures forall id :: |c.jobs| <= id < |c.jobs| + c.processors ==> Count(|c.jobs|, HoldsId(id), s.workers) == 1
    ensures forall i :: 0 <= i < |s.collected| ==> IsResult(c, s.threadExit, s.collected[i])
  {
    hide Program, Count;
    ReachableInv(c, s);
    var n := |c.jobs|;
    CountBounds(n, HoldsSentinel, s.workers);
    CountBounds(n, HoldsJob, s.workers);
    forall w | 0 <= w < |s.workers|
      ensures s.workers[w].Exited? && s.workers[w].job.id >= n && Matches(n, HoldsSentinel, s.workers[w])
    {
      assert ValidWorker(c, s.threadExit, s.workers[w]);
    }
    forall id: nat | id < n ensures Copies(id, s.collected) == 1 {
      CountBounds(n, HoldsId(id), s.workers);
      assert Places(c, s, id) == 1;
    }
    forall id: nat | n <= id < n + c.processors ensures Count(n, HoldsId(id), s.workers) == 1 {
      assert Places(c, s, id) == 1;
      ResultsAreReal(c, s, id);
    }
  }

  lemma ResultsAreReal(c: Config, s: State, id: nat)
    requires Inv(c, s) && id >= |c.jobs|
    ensures Copies(id, s.outputQueue) == 0 && Copies(id, s.collected) == 0
  {
    NoCopies(s.outputQueue, id);
    NoCopies(s.collected, id);
  }

  lemma {:induction false} NoCopies(jobs: seq<Job>, id: nat)
    requires forall i :: 0 <= i < |jobs| ==> jobs[i].id != id
    ensures Copies(id, jobs) == 0
  {
    if jobs == [] {
    } else {
      NoCopies(jobs[1..], id);
    }
  }

  // ----- liveness

  /** No deadlock: as long as there is a worker (or there is no job), the pool can always move
      without the help of an interrupt until the main thread is done. */
  lemma Progress(c: Config, s: State) returns (step: Step)
    requires Inv(c, s) && !Final(c, s)
    requires c.processors > 0 || c.jobs == []
    ensures Enabled(c, s, step) && step != Interrupt
  {
    var n := |c.jobs|;
    if s.todo != [] { return Dispatch; }
    if w :| 0 <= w < |s.workers| && s.workers[w].Taken? { return TestBreak(w); }
    if w :| 0 <= w < |s.workers| && s.workers[w].Live? { return TestExit(w); }
    if w :| 0 <= w < |s.workers| && s.workers[w].Cleared? { return Launch(w, 0, true); }
    if w :| 0 <= w < |s.workers| && s.workers[w].Finished? { return Put(w); }
    CountBounds(n, HoldsJob, s.workers);
    CountBounds(n, HoldsSentinel, s.workers);
    forall w | 0 <= w < |s.workers|
      ensures s.workers[w].Waiting? || (s.workers[w].Exited? && Matches(n, HoldsSentinel, s.workers[w]))
      ensures !Matches(n, HoldsJob, s.workers[w])
    {
      assert ValidWorker(c, s.threadExit, s.workers[w]);
    }
    if s.inputQueue != [] {
      if w :| 0 <= w < |s.workers| && s.workers[w].Waiting? { return Take(w); }
      assert false;
    }
    if |s.collected| < n { return Collect; }
    assert Matches(n, HoldsSentinel, s.workers[s.joined]);
    return Join;
  }

  function WorkerWeight(w: Worker): nat {
    match w
    case Waiting => 0
    case Taken(_) => 5
    case Live(_) => 4
    case Cleared(_) => 3
    case Finished(_) => 2
    case Exited(_) => 0
  }

  function WorkersWeight(workers: seq<Worker>): nat {
    if workers == [] then 0 else WorkerWeight(workers[0]) + WorkersWeight(workers[1..])
  }

  lemma {:induction false} WeightUpdate(workers: seq<Worker>, w: nat, x: Worker)
    requires w < |workers|
    ensures WorkersWeight(workers[w := x]) + WorkerWeight(workers[w]) == WorkersWeight(workers) + WorkerWeight(x)
  {
    if w == 0 {
      assert workers[w := x][1..] == workers[1..];
    } else {
      assert workers[w := x][1..] == workers[1..][w - 1 := x];
      WeightUpdate(workers[1..], w - 1, x);
    }
  }

  /** How many actions are still ahead at most: seven for each job object that is not
      dispatched, fewer for those further on, and one for each worker not yet joined. */
  function Remaining(s: State): int {
    7 * |s.todo| + 6 * |s.inputQueue| + WorkersWeight(s.workers) + |s.outputQueue| + |s.workers| - s.joined
  }

  lemma StepRemaining(c: Config, s: State, step: Step)
    requires Enabled(c, s, step)
    ensures Remaining(Next(c, s, step)) <= Remaining(s) - (if step.Interrupt? then 0 else 1)
  {
    var t := Next(c, s, step);
    match step
    case Take(w) => WeightUpdate(s.workers, w, t.workers[w]);
    case TestBreak(w) => WeightUpdate(s.workers, w, t.workers[w]);
    case TestExit(w) => WeightUpdate(s.workers, w, t.workers[w]);
    case Launch(w, _, _) => WeightUpdate(s.workers, w, t.workers[w]);
    case Put(w) => WeightUpdate(s.workers, w, Waiting);
    case _ =>
  }

  /** The actions of the threads in a run, signals not counted. */
  function Actions(steps: seq<Step>): nat {
    if steps == [] then 0 else Bit(!steps[0].Interrupt?) + Actions(steps[1..])
  }

  /** No livelock: every run of the pool, however scheduled and interrupted, is bounded. */
  lemma {:induction false} RunsAreBounded(c: Config, s: State, steps: seq<Step>, t: State)
    requires Executes(c, s, steps, t)
    ensures Actions(steps) <= Remaining(s) - Remaining(t)
    decreases |steps|
  {
    if steps == [] {
    } else {
      StepRemaining(c, s, steps[0]);
      RunsAreBounded(c, Next(c, s, steps[0]), steps[1..], t);
    }
  }

  lemma {:induction false} WeightOfWaiting(workers: seq<Worker>)
    requires forall w :: 0 <= w < |workers| ==> workers[w].Waiting?
    ensures WorkersWeight(workers) == 0
  {
    if workers == [] {
    } else {
      WeightOfWaiting(workers[1..]);
    }
  }

  /** A run from the start takes at most seven actions per job and eight per worker. */
  lemma RunBound(c: Config, steps: seq<Step>, t: State)
    requires ValidConfig(c) && Executes(c, Init(c), steps, t)
    ensures Actions(steps) <= 7 * |c.jobs| + 8 * c.processors
  {
    RunsAreBounded(c, Init(c), steps, t);
    hide Inv;
    InitInv(c);
    RunInv(c, Init(c), steps, t);
    WeightOfWaiting(Init(c).workers);
  }

  lemma {:induction false} CanComplete(c: Config, s: State) returns (steps: seq<Step>, t: State)
    requires Inv(c, s) && (c.processors > 0 || c.jobs == [])
    ensures Executes(c, s, steps, t) && Final(c, t)
    decreases Remaining(s)
  {
    if Final(c, s) { return [], s; }
    var step := Progress(c, s);
    StepInv(c, s, step);
    StepRemaining(c, s, step);
    var rest, end := CanComplete(c, Next(c, s, step));
    return [step] + rest, end;
  }

  /** Without a worker no job ever comes back. */
  lemma {:induction false} NoWorkerNoResult(c: Config, s: State, steps: seq<Step>, t: State)
    requires s.workers == [] && s.outputQueue == [] && s.collected == []
    requires Executes(c, s, steps, t)
    ensures t.collected == []
    decreases |steps|
  {
    if steps == [] {
    } else {
      NoWorkerNoResult(c, Next(c, s, steps[0]), steps[1..], t);
    }
  }

  /** The main thread can reach the end of its last join exactly when there is at least one
      worker or nothing to do. */
  lemma CompletesIff(c: Config)
    requires ValidConfig(c)
    ensures (exists s :: Reachable(c, s) && Final(c, s)) <==> (c.processors > 0 || c.jobs == [])
  {
    InitInv(c);
    if c.processors > 0 || c.jobs == [] {
      var steps, t := CanComplete(c, Init(c));
      assert Reachable(c, t);
    } else if s :| Reachable(c, s) && Final(c, s) {
      var steps :| Executes(c, Init(c), steps, s);
      NoWorkerNoResult(c, Init(c), steps, s);
    }
  }

  /** The number of threads that are started: the processors, limited by --jobs if that is not
      0. A negative number starts none, as an empty range. */
  function WorkerCount(processors: int, limit: int): (workers: nat)
    ensures processors >= 1 && limit == 0 ==> workers == processors
    ensures processors >= 1 && limit >= 1 ==>
      workers <= processors && workers <= limit && (workers == processors || workers == limit)
    ensures processors >= 1 && limit < 0 ==> workers == 0
  {
    var n := if limit == 0 || processors < limit then processors else limit;
    if n < 0 then 0 else n
  }

  /** On a machine with a processor, a run with jobs can come to its end exactly if --jobs is not
      negative: `--jobs=-1` starts no worker and leaves the main thread waiting for ever. */
  lemma RunnerCompletesIff(jobs: seq<Job>, processors: int, limit: int)
    requires processors >= 1 && ValidConfig(Config(jobs, WorkerCount(processors, limit)))
    ensures var c := Config(jobs, WorkerCount(processors, limit));
      (exists s :: Reachable(c, s) && Final(c, s)) <==> limit >= 0 || jobs == []
  {
    CompletesIff(Config(jobs, WorkerCount(processors, limit)));
  }

  /** With `--jobs=-1` and a job, no state in which the main thread is done can be reached. */
  lemma MinusOneHangs(job: Job, processors: int, s: State)
    requires processors >= 1 && ValidConfig(Config([job], WorkerCount(processors, -1)))
    requires Reachable(Config([job], WorkerCount(processors, -1)), s)
    ensures !Final(Config([job], WorkerCount(processors, -1)), s)
  {
    RunnerCompletesIff([job], processors, -1);
  }

  // ----- promptness of an interrupt

  function Launches(steps: seq<Step>): nat {
    if steps == [] then 0 else Bit(steps[0].Launch?) + Launches(steps[1..])
  }

  /** The launches of one worker. */
  function LaunchesBy(steps: seq<Step>, w: nat): nat {
    if steps == [] then 0 else Bit(steps[0].Launch? && steps[0].w == w) + LaunchesBy(steps[1..], w)
  }

  /** Once the flag is set, the only jobs still launched (or skipped) are those whose worker
      had already seen the flag clear. */
  lemma {:induction false} InterruptStopsLaunches(c: Config, s: State, steps: seq<Step>, t: State)
    requires s.threadExit && Executes(c, s, steps, t)
    ensures t.threadExit
    ensures Launches(steps) + Count(|c.jobs|, IsCleared, t.workers) == Count(|c.jobs|, IsCleared, s.workers)
    ensures Launches(steps) <= |s.workers|
    decreases |steps|
  {
    CountBounds(|c.jobs|, IsCleared, s.workers);
    if steps == [] {
    } else {
      var step, u, n := steps[0], Next(c, s, steps[0]), |c.jobs|;
      match step {
        case Take(w) => CountUpdate(n, IsCleared, s.workers, w, u.workers[w]);
        case TestBreak(w) => CountUpdate(n, IsCleared, s.workers, w, u.workers[w]);
        case TestExit(w) => CountUpdate(n, IsCleared, s.workers, w, u.workers[w]);
        case Launch(w, _, _) => CountUpdate(n, IsCleared, s.workers, w, u.workers[w]);
        case Put(w) => CountUpdate(n, IsCleared, s.workers, w, u.workers[w]);
        case _ =>
      }
      InterruptStopsLaunches(c, u, steps[1..], t);
    }
  }

  /** Each of these workers launches once more at most, and the others not at all. */
  lemma {:induction false} EachLaunchesOnce(c: Config, s: State, steps: seq<Step>, t: State, w: nat)
    requires s.threadExit && Executes(c, s, steps, t) && w < |s.workers|
    ensures |t.workers| == |s.workers|
    ensures LaunchesBy(steps, w) + Bit(t.workers[w].Cleared?) == Bit(s.workers[w].Cleared?)
    decreases |steps|
  {
    if steps == [] {
    } else {
      EachLaunchesOnce(c, Next(c, s, steps[0]), steps[1..], t, w);
    }
  }

  // ----- exactly-once execution

  /** A result with this return code and verdict, or any. */
  datatype Wanted = Any | Exactly(returncode: int, xmlPassed: bool)

  predicate Accepts(want: Wanted, returncode: int, xmlPassed: bool) {
    want.Any? || (want.returncode == returncode && want.xmlPassed == xmlPassed)
  }

  /** The step runs the program of job `id`, with a wanted result. */
  predicate Runs(s: State, step: Step, id: nat, want: Wanted) {
    && step.Launch? && step.w < |s.workers| && s.workers[step.w].Cleared?
    && s.workers[step.w].job.id == id && !s.workers[step.w].job.isSkip
    && Accepts(want, step.returncode, step.xmlPassed)
  }

  /** How often the program of job `id` is run. */
  function RunsOf(c: Config, s: State, steps: seq<Step>, t: State, id: nat, want: Wanted): nat
    requires Executes(c, s, steps, t)
    decreases |steps|
  {
    if steps == [] then 0
    else Bit(Runs(s, steps[0], id, want)) + RunsOf(c, Next(c, s, steps[0]), steps[1..], t, id, want)
  }

  /** `job` is the result of running job `id`. */
  predicate IsRun(job: Job, id: nat, want: Wanted) {
    job.id == id && !job.isBreak && !job.isSkip && Accepts(want, job.returncode, job.xmlPassed)
  }

  function RunCopies(jobs: seq<Job>, id: nat, want: Wanted): nat {
    if jobs == [] then 0 else Bit(IsRun(jobs[0], id, want)) + RunCopies(jobs[1..], id, want)
  }

  function RunHolders(workers: seq<Worker>, id: nat, want: Wanted): nat {
    if workers == [] then 0
    else Bit(workers[0].Finished? && IsRun(workers[0].job, id, want)) + RunHolders(workers[1..], id, want)
  }

  lemma {:induction false} RunCopiesSnoc(jobs: seq<Job>, job: Job, id: nat, want: Wanted)
    ensures RunCopies(jobs + [job], id, want) == RunCopies(jobs, id, want) + Bit(IsRun(job, id, want))
  {
    hide IsRun;
    if jobs == [] {
    } else {
      assert (jobs + [job])[1..] == jobs[1..] + [job];
      RunCopiesSnoc(jobs[1..], job, id, want);
    }
  }

  lemma {:induction false} RunHoldersUpdate(workers: seq<Worker>, w: nat, x: Worker, id: nat, want: Wanted)
    requires w < |workers|
    ensures RunHolders(workers[w := x], id, want) + Bit(workers[w].Finished? && IsRun(workers[w].job, id, want))
         == RunHolders(workers, id, want) + Bit(x.Finished? && IsRun(x.job, id, want))
  {
    hide IsRun;
    if w == 0 {
      assert workers[w := x][1..] == workers[1..];
    } else {
      assert workers[w := x][1..] == workers[1..][w - 1 := x];
      RunHoldersUpdate(workers[1..], w - 1, x, id, want);
    }
  }

  /** Results of running job `id` that are on their way or collected. */
  function Outcomes(s: State, id: nat, want: Wanted): nat {
    RunHolders(s.workers, id, want) + RunCopies(s.outputQueue, id, want) + RunCopies(s.collected, id, want)
  }

  /** Only running a job makes such a result, and no step loses one. */
  lemma StepOutcomes(c: Config, s: State, step: Step, id: nat, want: Wanted)
    requires Inv(c, s) && Enabled(c, s, step)
    ensures Outcomes(Next(c, s, step), id, want) == Outcomes(s, id, want) + Bit(Runs(s, step, id, want))
  {
    hide RunHolders, RunCopies, QueueInv, CountsInv, PlacesInv, IsOutcome, Program;
    var t := Next(c, s, step);
    match step
    case Take(w) => RunHoldersUpdate(s.workers, w, t.workers[w], id, want);
    case TestBreak(w) => RunHoldersUpdate(s.workers, w, t.workers[w], id, want);
    case TestExit(w) => RunHoldersUpdate(s.workers, w, t.workers[w], id, want);
    case Launch(w, _, _) =>
      assert ValidWorker(c, s.threadExit, s.workers[w]);
      RunHoldersUpdate(s.workers, w, t.workers[w], id, want);
    case Put(w) =>
      RunHoldersUpdate(s.workers, w, Waiting, id, want);
      RunCopiesSnoc(s.outputQueue, s.workers[w].job, id, want);
    case Collect =>
      RunCopiesSnoc(s.collected, s.outputQueue[0], id, want);
      RunCopiesHead(s.outputQueue, id, want);
    case _ =>
  }

  lemma RunCopiesHead(jobs: seq<Job>, id: nat, want: Wanted)
    requires jobs != []
    ensures RunCopies(jobs, id, want) == Bit(IsRun(jobs[0], id, want)) + RunCopies(jobs[1..], id, want)
  {
  }

  lemma {:induction false} RunOutcomes(c: Config, s: State, steps: seq<Step>, t: State, id: nat, want: Wanted)
    requires Inv(c, s) && Executes(c, s, steps, t)
    ensures Outcomes(t, id, want) == Outcomes(s, id, want) + RunsOf(c, s, steps, t, id, want)
    decreases |steps|
  {
    hide Inv, Outcomes, Runs;
    if steps == [] {
    } else {
      StepInv(c, s, steps[0]);
      StepOutcomes(c, s, steps[0], id, want);
      RunOutcomes(c, Next(c, s, steps[0]), steps[1..], t, id, want);
    }
  }

  /** In a list that holds job `id` once, its results number one or none. */
  lemma {:induction false} OneRunCopy(jobs: seq<Job>, id: nat, want: Wanted) returns (i: nat)
    requires Copies(id, jobs) == 1
    ensures i < |jobs| && jobs[i].id == id && RunCopies(jobs, id, want) == Bit(IsRun(jobs[i], id, want))
  {
    if jobs[0].id == id {
      NoRunCopies(jobs[1..], id, want);
      return 0;
    }
    i := OneRunCopy(jobs[1..], id, want);
    i := i + 1;
  }

  lemma {:induction false} NoRunCopies(jobs: seq<Job>, id: nat, want: Wanted)
    requires Copies(id, jobs) == 0
    ensures RunCopies(jobs, id, want) == 0
  {
    if jobs == [] {
    } else {
      NoRunCopies(jobs[1..], id, want);
    }
  }

  lemma {:induction false} NoRunHolders(workers: seq<Worker>, id: nat, want: Wanted)
    requires forall w :: 0 <= w < |workers| ==> !workers[w].Finished?
    ensures RunHolders(workers, id, want) == 0
  {
    if workers == [] {
    } else {
      NoRunHolders(workers[1..], id, want);
    }
  }

  /** Exactly-once execution: in a complete run, the program of a job is run once if the job came
      back uninterrupted and was not to be skipped, and then with the result that came back; it is
      never run otherwise. */
  lemma RunExactlyOnce(c: Config, steps: seq<Step>, t: State, id: nat, want: Wanted) returns (i: nat)
    requires ValidConfig(c) && Executes(c, Init(c), steps, t) && Final(c, t) && id < |c.jobs|
    ensures i < |t.collected| && t.collected[i].id == id && t.collected[i].isSkip == c.jobs[id].isSkip
    ensures RunsOf(c, Init(c), steps, t, id, want) == Bit(IsRun(t.collected[i], id, want))
  {
    hide Inv, Runs, IsRun, Program, Executes;
    InitInv(c);
    RunOutcomes(c, Init(c), steps, t, id, want);
    assert Reachable(c, t);
    CleanShutdown(c, t);
    i := OneRunCopy(t.collected, id, want);
    assert IsResult(c, t.threadExit, t.collected[i]);
    NoRunHolders(t.workers, id, want);
    NoRunHolders(Init(c).workers, id, want);
  }

  // ----- the pool under an arbitrary scheduler

  /** Runs the pool. The loop takes any enabled action of any thread, and lets an interrupt
      arrive at any moment; it ends because no schedule is infinite, and it ends only where
      the main thread has joined every worker. */
  method RunPool(c: Config) returns (s: State, ghost steps: seq<Step>)
    requires ValidConfig(c) && (c.processors > 0 || c.jobs == [])
    ensures Executes(c, Init(c), steps, s)
    ensures Final(c, s)
  {
    s := Init(c);
    steps := [];
    InitInv(c);
    while !Final(c, s)
      invariant Executes(c, Init(c), steps, s)
      invariant Inv(c, s)
      decreases Remaining(s) + Bit(!s.threadExit)
    {
      var interrupted: bool := *;
      var step: Step;
      if interrupted && !s.threadExit {
        step := Interrupt;
      } else {
        step := AnyAction(c, s);
      }
      StepInv(c, s, step);
      StepRemaining(c, s, step);
      ExecutesAppend(c, Init(c), steps, s, step);
      s, steps := Next(c, s, step), steps + [step];
    }
  }

  /** The choice of the scheduler, and of the outcome of a launched test. */
  method AnyAction(c: Config, s: State) returns (step: Step)
    requires Inv(c, s) && !Final(c, s) && (c.processors > 0 || c.jobs == [])
    ensures Enabled(c, s, step) && step != Interrupt
  {
    var returncode: int, xmlPassed: bool := *, *;
    ghost var possible := Progress(c, s);
    match possible {
      case Take(w) => assert Enabled(c, s, Take(w));
      case TestBreak(w) => assert Enabled(c, s, TestBreak(w));
      case TestExit(w) => assert Enabled(c, s, TestExit(w));
      case Launch(w, _, _) => assert Enabled(c, s, Launch(w, returncode, xmlPassed));
      case Put(w) => assert Enabled(c, s, Put(w));
      case _ =>
    }
    if
    case Enabled(c, s, Dispatch) => step := Dispatch;
    case Enabled(c, s, Collect) => step := Collect;
    case Enabled(c, s, Join) => step := Join;
    case exists w :: 0 <= w < |s.workers| && Enabled(c, s, Take(w)) =>
      var w :| 0 <= w < |s.workers| && Enabled(c, s, Take(w)); step := Take(w);
    case exists w :: 0 <= w < |s.workers| && Enabled(c, s, TestBreak(w)) =>
      var w :| 0 <= w < |s.workers| && Enabled(c, s, TestBreak(w)); step := TestBreak(w);
    case exists w :: 0 <= w < |s.workers| && Enabled(c, s, TestExit(w)) =>
      var w :| 0 <= w < |s.workers| && Enabled(c, s, TestExit(w)); step := TestExit(w);
    case exists w :: 0 <= w < |s.workers| && Enabled(c, s, Launch(w, returncode, xmlPassed)) =>
      var w :| 0 <= w < |s.workers| && Enabled(c, s, Launch(w, returncode, xmlPassed));
      step := Launch(w, returncode, xmlPassed);
    case exists w :: 0 <= w < |s.workers| && Enabled(c, s, Put(w)) =>
      var w :| 0 <= w < |s.workers| && Enabled(c, s, Put(w)); step := Put(w);
  }

  lemma {:induction false} ExecutesAppend(c: Config, s: State, steps: seq<Step>, t: State, step: Step)
    requires Executes(c, s, steps, t) && Enabled(c, t, step)
    ensures Executes(c, s, steps + [step], Next(c, t, step))
    decreases |steps|
  {
    var longer := steps + [step];
    if steps == [] {
      assert longer[1..] == [];
    } else {
      assert longer[1..] == steps[1..] + [step];
      ExecutesAppend(c, Next(c, s, steps[0]), steps[1..], t, step);
    }
  }
}
