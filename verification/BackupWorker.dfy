/**
 * The backup queue as a protocol: any number of callers, one mutex, and the worker threads they start. Each thread
 * advances by atomic steps in any interleaving; a caller may wait for the previous worker while it holds the mutex.
 */
module BackupWorker {
  import opened Bytes

  type Job = nat

  /** Where a thread that calls BackupFile or IsInProgress is. */
  datatype Caller =
    | Idle
    | Wants(job: Job)       // before taking the mutex
    | Locked(job: Job)      // holds it from here on
    | Pushed
    | Waiting(worker: nat)  // backup_future.wait()
    | Starting              // about to set m_WorkerRunning
    | Spawning              // about to start the worker
    | Leaving               // about to release the mutex
    | Asks                  // IsInProgress, before taking the mutex
    | Reading
    | Answered(busy: bool)

  /** Where a worker thread is in RunQueuedBackups. */
  datatype Worker =
    | Ready                 // before taking the mutex
    | Inside                // holds it
    | Took(job: Job)        // popped a job, still holds it
    | Copying(job: Job)     // DoBackup, without the mutex
    | Cleared               // cleared m_WorkerRunning, still holds the mutex
    | Returning
    | Done

  datatype Holder = Nobody | ByCaller(c: nat) | ByWorker(w: nat)

  datatype State = State(
    callers: seq<Caller>,
    workers: seq<Worker>,      // in the order they were started
    holder: Holder,
    pending: seq<Job>,
    running: bool,
    future: Option<nat>,       // the worker backup_future belongs to
    asked: seq<Job>,           // every job BackupFile was ever called with
    enqueued: seq<Job>,        // every job ever pushed
    taken: seq<Job>,           // every job ever popped
    finished: seq<Job>)        // every job DoBackup returned from

  predicate CallerInside(p: Caller) {
    p.Locked? || p.Pushed? || p.Waiting? || p.Starting? || p.Spawning? || p.Leaving? || p.Reading? || p.Answered?
  }

  predicate WorkerInside(p: Worker) { p.Inside? || p.Took? || p.Cleared? }

  /** The worker still serves the queue: it will look at it again under the mutex. */
  predicate Serving(p: Worker) { p.Ready? || p.Inside? || p.Took? || p.Copying? }

  function Initial(threads: nat): State {
    State(seq(threads, _ => Idle), [], Nobody, [], false, None, [], [], [], [])
  }

  // ---------------------------------------------------------------- steps

  datatype Step =
    | Call(c: nat, job: Job)
    | Ask(c: nat)
    | CallerStep(c: nat)
    | WorkerStep(w: nat)

  predicate CallerEnabled(s: State, c: nat)
    requires c < |s.callers|
  {
    match s.callers[c]
    case Idle => false
    case Wants(_) => s.holder.Nobody?
    case Asks => s.holder.Nobody?
    case Waiting(w) => w < |s.workers| && s.workers[w].Done?
    case _ => true
  }

  predicate WorkerEnabled(s: State, w: nat)
    requires w < |s.workers|
  {
    match s.workers[w]
    case Ready => s.holder.Nobody?
    case Done => false
    case _ => true
  }

  predicate Enabled(s: State, step: Step) {
    match step
    case Call(c, _) => c < |s.callers| && s.callers[c].Idle?
    case Ask(c) => c < |s.callers| && s.callers[c].Idle?
    case CallerStep(c) => c < |s.callers| && CallerEnabled(s, c)
    case WorkerStep(w) => w < |s.workers| && WorkerEnabled(s, w)
  }

  function At(s: State, c: nat, p: Caller): State
    requires c < |s.callers|
  {
    s.(callers := s.callers[c := p])
  }

  function WorkerAt(s: State, w: nat, p: Worker): State
    requires w < |s.workers|
  {
    s.(workers := s.workers[w := p])
  }

  function CallerNext(s: State, c: nat): State
    requires c < |s.callers| && CallerEnabled(s, c)
  {
    match s.callers[c]
    case Wants(job) => At(s, c, Locked(job)).(holder := ByCaller(c))
    case Locked(job) => At(s, c, Pushed).(pending := s.pending + [job], enqueued := s.enqueued + [job])
    case Pushed =>
      At(s, c, if s.running then Leaving else if s.future.Some? then Waiting(s.future.value) else Starting)
    case Waiting(_) => At(s, c, Starting)
    case Starting => At(s, c, Spawning).(running := true)
    case Spawning => At(s, c, Leaving).(workers := s.workers + [Ready], future := Some(|s.workers|))
    case Leaving => At(s, c, Idle).(holder := Nobody)
    case Asks => At(s, c, Reading).(holder := ByCaller(c))
    case Reading => At(s, c, Answered(s.running || s.pending != []))
    case Answered(_) => At(s, c, Idle).(holder := Nobody)
  }

  function WorkerNext(s: State, w: nat): State
    requires w < |s.workers| && WorkerEnabled(s, w)
  {
    match s.workers[w]
    case Ready => WorkerAt(s, w, Inside).(holder := ByWorker(w))
    case Inside =>
      if s.pending == [] then WorkerAt(s, w, Cleared).(running := false)
      else WorkerAt(s, w, Took(s.pending[0])).(pending := s.pending[1..], taken := s.taken + [s.pending[0]])
    case Took(job) => WorkerAt(s, w, Copying(job)).(holder := Nobody)
    case Copying(job) => WorkerAt(s, w, Ready).(finished := s.finished + [job])
    case Cleared => WorkerAt(s, w, Returning).(holder := Nobody)
    case Returning => WorkerAt(s, w, Done)
  }

  function Next(s: State, step: Step): State
    requires Enabled(s, step)
  {
    match step
    case Call(c, job) => At(s, c, Wants(job)).(asked := s.asked + [job])
    case Ask(c) => At(s, c, Asks)
    case CallerStep(c) => CallerNext(s, c)
    case WorkerStep(w) => WorkerNext(s, w)
  }

  /** Whoever asks under the mutex is answered by the next step. */
  lemma AskIsAnswered(s: State, c: nat)
    requires c < |s.callers| && s.callers[c].Reading?
    ensures CallerNext(s, c).callers[c] == Answered(s.running || s.pending != [])
  {}

  // ---------------------------------------------------------------- what every interleaving keeps

  /** The mutex is held by the one thread that is inside, if any is. */
  predicate MutexHeld(s: State) {
    && (forall c :: 0 <= c < |s.callers| ==> (CallerInside(s.callers[c]) <==> s.holder == ByCaller(c)))
    && (forall w :: 0 <= w < |s.workers| ==> (WorkerInside(s.workers[w]) <==> s.holder == ByWorker(w)))
    && (s.holder.ByCaller? ==> s.holder.c < |s.callers|)
    && (s.holder.ByWorker? ==> s.holder.w < |s.workers|)
  }

  function Last(s: State): Worker {
    if s.workers == [] then Done else s.workers[|s.workers| - 1]
  }

  /** The future belongs to the newest worker, and every older one has ended. */
  predicate OneWorker(s: State) {
    && s.future == (if s.workers == [] then None else Some(|s.workers| - 1))
    && forall w :: 0 <= w < |s.workers| - 1 ==> s.workers[w].Done?
  }

  /** What the thread inside the mutex has established, by where it is. */
  predicate CallerKnows(s: State, p: Caller) {
    match p
    case Waiting(w) => !s.running && w == |s.workers| - 1
    case Starting => !s.running && Last(s).Done?
    case Spawning => s.running && Last(s).Done? && s.pending != []
    case Leaving => s.running
    case Answered(busy) => busy == (s.running || s.pending != [])
    case _ => true
  }

  /** A caller that pushed and has not yet made sure that somebody serves the queue. */
  predicate Handing(p: Caller) { p.Pushed? || p.Waiting? || p.Starting? }

  predicate Inv(s: State) {
    && MutexHeld(s) && OneWorker(s)
    && s.enqueued == s.taken + s.pending
    && (forall c :: 0 <= c < |s.callers| ==> CallerKnows(s, s.callers[c]))
    && (Serving(Last(s)) ==> s.running)
    && (s.running ==>
          Serving(Last(s)) || (s.holder.ByCaller? && s.holder.c < |s.callers| && s.callers[s.holder.c].Spawning?))
    && (s.pending != [] ==>
          s.running || (s.holder.ByCaller? && s.holder.c < |s.callers| && Handing(s.callers[s.holder.c])))
    && (forall c :: 0 <= c < |s.callers| && Handing(s.callers[c]) ==> s.pending != [])
  }

  lemma InitialInv(threads: nat)
    ensures Inv(Initial(threads))
  {}

  lemma MutexByCaller(s: State, c: nat)
    requires Inv(s) && c < |s.callers| && CallerEnabled(s, c)
    ensures MutexHeld(CallerNext(s, c))
    ensures CallerInside(s.callers[c]) ==> s.holder == ByCaller(c)
    ensures forall d :: 0 <= d < |s.callers| && d != c && CallerInside(s.callers[d]) ==> !CallerInside(s.callers[c])
  {
    hide CallerKnows, OneWorker;
  }

  lemma CallersStillKnow(s: State, c: nat)
    requires Inv(s) && c < |s.callers| && CallerEnabled(s, c)
    ensures forall d :: 0 <= d < |s.callers| ==> CallerKnows(CallerNext(s, c), CallerNext(s, c).callers[d])
  {
    MutexByCaller(s, c);
    hide MutexHeld, WorkerInside;
  }

  lemma {:induction false} CallerKeeps(s: State, c: nat)
    requires Inv(s) && c < |s.callers| && CallerEnabled(s, c)
    ensures Inv(CallerNext(s, c))
  {
    MutexByCaller(s, c);
    CallersStillKnow(s, c);
    hide MutexHeld, WorkerInside;
  }

  lemma MutexByWorker(s: State, w: nat)
    requires Inv(s) && w < |s.workers| && WorkerEnabled(s, w)
    ensures MutexHeld(WorkerNext(s, w)) && OneWorker(WorkerNext(s, w)) && w == |s.workers| - 1
    ensures WorkerInside(s.workers[w]) ==> s.holder == ByWorker(w)
    ensures WorkerInside(s.workers[w]) ==> forall c :: 0 <= c < |s.callers| ==> !CallerInside(s.callers[c])
  {
    hide CallerKnows;
  }

  lemma WorkerKeeps(s: State, w: nat)
    requires Inv(s) && w < |s.workers| && WorkerEnabled(s, w)
    ensures Inv(WorkerNext(s, w))
  {
    MutexByWorker(s, w);
    hide MutexHeld;
  }

  lemma {:induction false} StepKeepsInv(s: State, step: Step)
    requires Inv(s) && Enabled(s, step)
    ensures Inv(Next(s, step))
  {
    match step
    case CallerStep(c) => CallerKeeps(s, c);
    case WorkerStep(w) => WorkerKeeps(s, w);
    case _ =>
  }

  // ---------------------------------------------------------------- no job is lost, changed or copied twice

  /** The job a worker has popped and not yet finished. */
  function Carried(p: Worker): seq<Job> {
    match p
    case Took(job) => [job]
    case Copying(job) => [job]
    case _ => []
  }

  /** What was popped was finished, but for what the newest worker carries. */
  predicate Carrying(s: State) {
    s.taken == s.finished + Carried(Last(s))
  }

  lemma WorkerCarries(s: State, w: nat)
    requires Inv(s) && Carrying(s) && w < |s.workers| && WorkerEnabled(s, w)
    ensures Carrying(WorkerNext(s, w))
  {
    NewestMoves(s, w);
    hide Inv;
    assert s.finished + [] == s.finished;
    if s.workers[w].Inside? && s.pending != [] {
      Associates(s.finished, [], [s.pending[0]]);
    }
  }

  /** Only the newest worker still moves. */
  lemma NewestMoves(s: State, w: nat)
    requires Inv(s) && w < |s.workers| && WorkerEnabled(s, w)
    ensures w == |s.workers| - 1 && Last(s) == s.workers[w]
  {
    hide MutexHeld, CallerKnows;
  }

  lemma CallerCarries(s: State, c: nat)
    requires Inv(s) && Carrying(s) && c < |s.callers| && CallerEnabled(s, c)
    ensures Carrying(CallerNext(s, c))
  {
    CallerLast(s, c);
  }

  /** A caller starts a worker only when the last one carries nothing. */
  lemma CallerLast(s: State, c: nat)
    requires Inv(s) && c < |s.callers| && CallerEnabled(s, c)
    ensures Carried(Last(CallerNext(s, c))) == Carried(Last(s))
    ensures CallerNext(s, c).taken == s.taken && CallerNext(s, c).finished == s.finished
  {
    hide MutexHeld, WorkerInside, CallerInside, OneWorker;
    assert CallerKnows(s, s.callers[c]);
  }

  function Count(jobs: seq<Job>, job: Job): nat {
    if jobs == [] then 0
    else Count(jobs[..|jobs| - 1], job) + if jobs[|jobs| - 1] == job then 1 else 0
  }

  lemma {:induction false} CountIs(jobs: seq<Job>, job: Job)
    ensures Count(jobs, job) == multiset(jobs)[job]
  {
    if jobs != [] {
      CountIs(jobs[..|jobs| - 1], job);
      assert jobs == jobs[..|jobs| - 1] + [jobs[|jobs| - 1]];
    }
  }

  lemma CountMore(jobs: seq<Job>, more: Job, job: Job)
    ensures Count(jobs + [more], job) == Count(jobs, job) + if more == job then 1 else 0
  {
    assert (jobs + [more])[..|jobs|] == jobs;
  }

  /** How many callers bring a job they have not pushed yet. */
  function InHand(callers: seq<Caller>, job: Job): nat {
    if callers == [] then 0 else InHand(callers[..|callers| - 1], job) + Brought(callers[|callers| - 1], job)
  }

  function Brought(p: Caller, job: Job): nat {
    if p == Wants(job) || p == Locked(job) then 1 else 0
  }

  /** Every call for a job is in some caller's hand or was pushed, each once. */
  predicate Balanced(s: State, job: Job) {
    Count(s.asked, job) == Count(s.enqueued, job) + InHand(s.callers, job)
  }

  lemma {:induction false} InHandMoved(callers: seq<Caller>, c: nat, p: Caller, job: Job)
    requires c < |callers|
    ensures InHand(callers[c := p], job) == InHand(callers, job) - Brought(callers[c], job) + Brought(p, job)
  {
    var front := callers[..|callers| - 1];
    if c < |front| {
      InHandMoved(front, c, p, job);
      assert callers[c := p][..|callers| - 1] == front[c := p];
    } else {
      assert callers[c := p][..|callers| - 1] == front;
    }
  }

  lemma {:induction false} IdleHandsEmpty(callers: seq<Caller>, job: Job)
    requires forall c :: 0 <= c < |callers| ==> callers[c].Idle?
    ensures InHand(callers, job) == 0
  {
    if callers != [] {
      IdleHandsEmpty(callers[..|callers| - 1], job);
    }
  }

  lemma CallerBalances(s: State, c: nat, job: Job)
    requires Balanced(s, job) && c < |s.callers| && CallerEnabled(s, c)
    ensures Balanced(CallerNext(s, c), job)
  {
    hide InHand, Count;
    InHandMoved(s.callers, c, CallerNext(s, c).callers[c], job);
    if s.callers[c].Locked? {
      CountMore(s.enqueued, s.callers[c].job, job);
    }
  }

  /** Every step keeps what was asked for, pushed, popped and finished in balance. */
  lemma StepConserves(s: State, step: Step, job: Job)
    requires Inv(s) && Carrying(s) && Balanced(s, job) && Enabled(s, step)
    ensures Carrying(Next(s, step)) && Balanced(Next(s, step), job)
  {
    hide Inv, InHand, Count, CallerNext;
    match step
    case CallerStep(c) =>
      CallerCarries(s, c);
      CallerBalances(s, c, job);
    case WorkerStep(w) => WorkerCarries(s, w);
    case Call(c, asked) =>
      InHandMoved(s.callers, c, Wants(asked), job);
      CountMore(s.asked, asked, job);
    case Ask(c) => InHandMoved(s.callers, c, Asks, job);
  }

  // ---------------------------------------------------------------- runs

  predicate Possible(s: State, steps: seq<Step>)
    decreases |steps|
  {
    steps != [] ==> Enabled(s, steps[0]) && Possible(Next(s, steps[0]), steps[1..])
  }

  function Run(s: State, steps: seq<Step>): State
    requires Possible(s, steps)
    decreases |steps|
  {
    if steps == [] then s else Run(Next(s, steps[0]), steps[1..])
  }

  lemma NoStepsAtAll(s: State)
    ensures Possible(s, [])
  {}

  /** A run goes on by any step that is then enabled, and by no other. */
  lemma {:induction false} OneMoreStep(s: State, steps: seq<Step>, step: Step)
    requires Possible(s, steps)
    ensures Run(s, []) == s
    ensures Possible(s, steps + [step]) <==> Enabled(Run(s, steps), step)
    ensures Possible(s, steps + [step]) ==> Run(s, steps + [step]) == Next(Run(s, steps), step)
    decreases |steps|
  {
    hide Enabled, Next;
    if steps == [] {
      assert steps + [step] == [step] && [step][1..] == [];
    } else {
      assert (steps + [step])[1..] == steps[1..] + [step];
      OneMoreStep(Next(s, steps[0]), steps[1..], step);
    }
  }

  lemma {:induction false} RunKeepsInv(s: State, steps: seq<Step>, job: Job)
    requires Inv(s) && Carrying(s) && Balanced(s, job) && Possible(s, steps)
    ensures Inv(Run(s, steps)) && Carrying(Run(s, steps)) && Balanced(Run(s, steps), job)
    decreases |steps|
  {
    hide Inv, Carrying, Balanced;
    if steps != [] {
      StepKeepsInv(s, steps[0]);
      StepConserves(s, steps[0], job);
      RunKeepsInv(Next(s, steps[0]), steps[1..], job);
    }
  }

  /** In every interleaving of callers and workers, from the start. */
  lemma EveryReachableState(threads: nat, steps: seq<Step>, job: Job)
    requires Possible(Initial(threads), steps)
    ensures var s := Run(Initial(threads), steps);
      // every call for a job is in its caller's hand or was pushed, each once
      && Count(s.asked, job) == Count(s.enqueued, job) + InHand(s.callers, job)
      // jobs leave the queue in the order they entered, each once
      && s.taken + s.pending == s.enqueued
      // and are copied in that order, each once: what a worker carries is the job popped last
      && (s.taken == s.finished || (s.workers != [] && s.taken == s.finished + Carried(s.workers[|s.workers| - 1])))
      && (forall w, j :: 0 <= w < |s.workers| && (s.workers[w] == Took(j) || s.workers[w] == Copying(j))
            ==> s.taken == s.finished + [j])
      // at most one worker serves the queue, and only while the flag is set
      && (forall w, v :: 0 <= w < |s.workers| && 0 <= v < |s.workers| && Serving(s.workers[w]) && Serving(s.workers[v])
            ==> w == v && s.running)
      // outside the mutex a waiting job has a worker
      && (s.pending != [] && !s.holder.ByCaller? ==> s.running && Serving(Last(s)))
      // the worker a caller waits for needs the mutex no more
      && (forall c, w: nat :: 0 <= c < |s.callers| && s.callers[c] == Waiting(w)
            ==> w < |s.workers| && (s.workers[w].Returning? || s.workers[w].Done?))
      // "not in progress" is the truth: everything pushed was copied
      && (forall c :: 0 <= c < |s.callers| && s.callers[c] == Answered(false)
            ==> s.finished == s.enqueued && forall w :: 0 <= w < |s.workers| ==> !Serving(s.workers[w]))
      // and so is "in progress": a worker serves the queue
      && (forall c :: 0 <= c < |s.callers| && s.callers[c] == Answered(true)
            ==> exists w :: 0 <= w < |s.workers| && Serving(s.workers[w]))
  {
    InitialInv(threads);
    IdleHandsEmpty(Initial(threads).callers, job);
    RunKeepsInv(Initial(threads), steps, job);
    var s := Run(Initial(threads), steps);
    InvMeans(s);
    CarriedMeans(s);
  }

  lemma CarriedMeans(s: State)
    requires Inv(s) && Carrying(s)
    ensures s.taken == s.finished || (s.workers != [] && s.taken == s.finished + Carried(s.workers[|s.workers| - 1]))
    ensures forall w, job :: 0 <= w < |s.workers| && (s.workers[w] == Took(job) || s.workers[w] == Copying(job))
              ==> s.taken == s.finished + [job]
    ensures !Serving(Last(s)) ==> s.taken == s.finished
  {
    hide MutexHeld, CallerKnows;
    assert s.finished + [] == s.finished;
  }

  lemma InvMeans(s: State)
    requires Inv(s)
    ensures s.taken + s.pending == s.enqueued
    ensures forall w, v ::
      0 <= w < |s.workers| && 0 <= v < |s.workers| && Serving(s.workers[w]) && Serving(s.workers[v])
      ==> w == v && s.running
    ensures s.pending != [] && !s.holder.ByCaller? ==> s.running && Serving(Last(s))
    ensures forall c, w: nat :: 0 <= c < |s.callers| && s.callers[c] == Waiting(w)
              ==> w < |s.workers| && (s.workers[w].Returning? || s.workers[w].Done?)
    ensures forall c :: 0 <= c < |s.callers| && s.callers[c] == Answered(false)
              ==> s.taken == s.enqueued && !Serving(Last(s))
                  && forall w :: 0 <= w < |s.workers| ==> !Serving(s.workers[w])
    ensures forall c :: 0 <= c < |s.callers| && s.callers[c] == Answered(true)
              ==> exists w :: 0 <= w < |s.workers| && Serving(s.workers[w])
  {
    forall c, w: nat | 0 <= c < |s.callers| && s.callers[c] == Waiting(w)
      ensures w < |s.workers| && (s.workers[w].Returning? || s.workers[w].Done?)
    {
      assert CallerKnows(s, s.callers[c]) && CallerInside(s.callers[c]);
      assert s.pending != [];
    }
    forall c | 0 <= c < |s.callers| && s.callers[c] == Answered(false) ensures s.taken == s.enqueued && !s.running {
      assert CallerKnows(s, s.callers[c]);
    }
    forall c | 0 <= c < |s.callers| && s.callers[c] == Answered(true)
      ensures exists w :: 0 <= w < |s.workers| && Serving(s.workers[w])
    {
      assert CallerKnows(s, s.callers[c]) && CallerInside(s.callers[c]);
      assert Serving(s.workers[|s.workers| - 1]);
    }
  }

  // ---------------------------------------------------------------- no deadlock, and the queue drains

  predicate Quiet(s: State) {
    && (forall c :: 0 <= c < |s.callers| ==> s.callers[c].Idle?)
    && (forall w :: 0 <= w < |s.workers| ==> s.workers[w].Done?)
  }

  /** Unless every thread has finished, some thread can go on without a new call. */
  lemma SomethingMoves(s: State) returns (step: Step)
    requires Inv(s) && !Quiet(s)
    ensures (step.CallerStep? || step.WorkerStep?) && Enabled(s, step)
  {
    match s.holder
    case ByCaller(c) =>
      step := CallerStep(c);
      if s.callers[c].Waiting? {
        InvMeans(s);
        var w := s.callers[c].worker;
        if !s.workers[w].Done? {
          step := WorkerStep(w);
        }
      }
    case ByWorker(w) => step := WorkerStep(w);
    case Nobody =>
      if c :| 0 <= c < |s.callers| && !s.callers[c].Idle? {
        step := CallerStep(c);
      } else {
        var w :| 0 <= w < |s.workers| && !s.workers[w].Done?;
        step := WorkerStep(w);
      }
  }

  /** When all have finished, every job asked for was copied, each once, and nothing pretends to run. */
  lemma QuietMeansDrained(s: State)
    requires Inv(s) && Carrying(s) && Quiet(s)
    ensures s.pending == [] && s.finished == s.taken == s.enqueued
    ensures forall job :: Balanced(s, job) ==> Count(s.finished, job) == Count(s.asked, job)
    ensures !s.running && s.holder.Nobody?
  {
    forall job ensures InHand(s.callers, job) == 0 {
      IdleHandsEmpty(s.callers, job);
    }
    hide InHand, Count;
    NobodyInside(s);
  }

  lemma NobodyInside(s: State)
    requires MutexHeld(s) && Quiet(s)
    ensures s.holder.Nobody?
  {
    forall c | 0 <= c < |s.callers| ensures s.holder != ByCaller(c) {
      assert !CallerInside(s.callers[c]);
    }
    forall w | 0 <= w < |s.workers| ensures s.holder != ByWorker(w) {
      assert !WorkerInside(s.workers[w]);
    }
  }

  function CallerWork(p: Caller): nat {
    match p
    case Idle => 0
    case Wants(_) => 15
    case Locked(_) => 14
    case Pushed => 9
    case Waiting(_) => 8
    case Starting => 7
    case Spawning => 6
    case Leaving => 1
    case Asks => 3
    case Reading => 2
    case Answered(_) => 1
  }

  function WorkerWork(p: Worker): nat {
    match p
    case Took(_) => 6
    case Copying(_) => 5
    case Ready => 4
    case Inside => 3
    case Cleared => 2
    case Returning => 1
    case Done => 0
  }

  function CallersWork(callers: seq<Caller>): nat {
    if callers == [] then 0 else CallersWork(callers[..|callers| - 1]) + CallerWork(callers[|callers| - 1])
  }

  function WorkersWork(workers: seq<Worker>): nat {
    if workers == [] then 0 else WorkersWork(workers[..|workers| - 1]) + WorkerWork(workers[|workers| - 1])
  }

  /** The steps that are left when nobody calls again. */
  function Work(s: State): nat {
    CallersWork(s.callers) + WorkersWork(s.workers) + 4 * |s.pending|
  }

  lemma {:induction false} CallerMoved(callers: seq<Caller>, c: nat, p: Caller)
    requires c < |callers|
    ensures CallersWork(callers[c := p]) == CallersWork(callers) - CallerWork(callers[c]) + CallerWork(p)
  {
    var front := callers[..|callers| - 1];
    if c < |front| {
      CallerMoved(front, c, p);
      assert callers[c := p][..|callers| - 1] == front[c := p];
    } else {
      assert callers[c := p][..|callers| - 1] == front;
    }
  }

  lemma {:induction false} WorkerMoved(workers: seq<Worker>, w: nat, p: Worker)
    requires w < |workers|
    ensures WorkersWork(workers[w := p]) == WorkersWork(workers) - WorkerWork(workers[w]) + WorkerWork(p)
  {
    var front := workers[..|workers| - 1];
    if w < |front| {
      WorkerMoved(front, w, p);
      assert workers[w := p][..|workers| - 1] == front[w := p];
    } else {
      assert workers[w := p][..|workers| - 1] == front;
    }
  }

  lemma StepUsesWork(s: State, step: Step)
    requires Enabled(s, step) && (step.CallerStep? || step.WorkerStep?)
    ensures Work(Next(s, step)) < Work(s)
  {
    hide Work, CallerNext, WorkerNext;
    match step
    case CallerStep(c) => CallerUsesWork(s, c);
    case WorkerStep(w) => WorkerUsesWork(s, w);
  }

  lemma CallerUsesWork(s: State, c: nat)
    requires c < |s.callers| && CallerEnabled(s, c)
    ensures Work(CallerNext(s, c)) < Work(s)
  {
    hide CallersWork, WorkersWork;
    CallerMoved(s.callers, c, CallerNext(s, c).callers[c]);
    OneMoreWorker(s.workers);
  }

  lemma WorkerUsesWork(s: State, w: nat)
    requires w < |s.workers| && WorkerEnabled(s, w)
    ensures Work(WorkerNext(s, w)) < Work(s)
  {
    hide CallersWork, WorkersWork;
    WorkerMoved(s.workers, w, WorkerNext(s, w).workers[w]);
  }

  lemma OneMoreWorker(workers: seq<Worker>)
    ensures WorkersWork(workers + [Ready]) == WorkersWork(workers) + 4
  {
    assert (workers + [Ready])[..|workers|] == workers;
  }

  /** So without new calls every schedule ends, after at most Work(s) steps, with the queue drained. */
  lemma {:induction false} EveryScheduleDrains(s: State, steps: seq<Step>, job: Job)
    requires Inv(s) && Carrying(s) && Balanced(s, job) && Possible(s, steps)
    requires forall i :: 0 <= i < |steps| ==> steps[i].CallerStep? || steps[i].WorkerStep?
    ensures |steps| <= Work(s)
    ensures var t := Run(s, steps);
      (forall step: Step :: step.CallerStep? || step.WorkerStep? ==> !Enabled(t, step))
      ==> Quiet(t) && t.finished == t.enqueued && Count(t.finished, job) == Count(t.asked, job) && !t.running
    decreases |steps|
  {
    hide Inv, Carrying, Balanced, Quiet, Work, Enabled, Next;
    if steps == [] {
      if !Quiet(s) {
        var step := SomethingMoves(s);
      } else {
        QuietMeansDrained(s);
      }
    } else {
      assert steps[0].CallerStep? || steps[0].WorkerStep?;
      StepKeepsInv(s, steps[0]);
      StepConserves(s, steps[0], job);
      StepUsesWork(s, steps[0]);
      EveryScheduleDrains(Next(s, steps[0]), steps[1..], job);
    }
  }
}
