/** The thread pool as a state machine: N workers, any number of submitters and the owner that
    starts and destroys the pool share one mutex-guarded queue. A run is any interleaving of
    their steps. */
module ThreadPool {
  import opened Bytes

  /** One unit of work, known by its number. */
  type Job = nat

  /** Where a worker is in its loop. */
  datatype WorkerPc =
    | Check                     // about to read `running`
    | Lock                      // about to lock the mutex
    | Pop                       // holds the mutex, about to pop
    | Unlock(node: Option<Job>) // holds the mutex, has popped
    | Run(job: Job)             // about to run the job it popped
    | Exited

  datatype Worker = Worker(running: bool, pc: WorkerPc)

  /** Where a thread that adds jobs is. */
  datatype Submitter = Idle | AddLock(job: Job) | AddAppend(job: Job) | AddUnlock

  /** Where the thread that owns the pool is. */
  datatype Owner =
    | Starting
    | Ready
    | Stopping(i: nat) // about to clear the `running` flag of worker i
    | Waiting(i: nat)  // until worker i has exited
    | DrainLock
    | Draining
    | DrainUnlock
    | Freed

  datatype Party = AWorker(i: nat) | ASubmitter(i: nat) | TheOwner

  /** The last five fields record what happened; no step looks at them. `requested` holds the
      jobs add_job was called with, `submitted` those it has appended. */
  datatype State = State(
    maxThreads: nat,
    workers: seq<Worker>,
    submitters: seq<Submitter>,
    owner: Owner,
    mutex: Option<Party>,
    queue: seq<Job>,
    requested: seq<Job>,
    submitted: seq<Job>,
    popped: seq<Job>,
    executed: seq<Job>,
    dropped: seq<Job>)

  datatype Step = Begin(i: nat, job: Job) | Move(party: Party)

  function Initial(maxThreads: nat, submitters: nat): State {
    State(maxThreads, [], seq(submitters, i => Idle), Starting, None, [], [], [], [], [], [])
  }

  predicate AllIdle(s: State) {
    forall i | 0 <= i < |s.submitters| :: s.submitters[i].Idle?
  }

  // ---------- The steps ----------

  /** Nothing keeps a caller that has been given the pool from calling `add_job`, not even once
      the pool is freed. */
  predicate Enabled(s: State, step: Step) {
    match step
    case Begin(i, _) => i < |s.submitters| && s.submitters[i].Idle? && !s.owner.Starting?
    case Move(AWorker(i)) =>
      && i < |s.workers| && !s.workers[i].pc.Exited?
      && (s.workers[i].pc.Lock? ==> s.mutex.None?)
    case Move(ASubmitter(i)) =>
      && i < |s.submitters| && !s.submitters[i].Idle?
      && (s.submitters[i].AddLock? ==> s.mutex.None?)
    case Move(TheOwner) =>
      && !s.owner.Freed?
      && (s.owner.Waiting? ==> s.owner.i < |s.workers| && s.workers[s.owner.i].pc.Exited?)
      && (s.owner.DrainLock? ==> s.mutex.None?)
  }

  function Do(s: State, step: Step): State
    requires Enabled(s, step)
  {
    match step
    case Begin(i, job) =>
      s.(submitters := s.submitters[i := AddLock(job)], requested := s.requested + [job])
    case Move(AWorker(i)) => MoveWorker(s, i)
    case Move(ASubmitter(i)) => MoveSubmitter(s, i)
    case Move(TheOwner) => MoveOwner(s)
  }

  function At(s: State, i: nat, pc: WorkerPc): State
    requires i < |s.workers|
  {
    s.(workers := s.workers[i := s.workers[i].(pc := pc)])
  }

  function MoveWorker(s: State, i: nat): State
    requires Enabled(s, Move(AWorker(i)))
  {
    match s.workers[i].pc
    case Check => At(s, i, if s.workers[i].running then Lock else Exited)
    case Lock => At(s, i, Pop).(mutex := Some(AWorker(i)))
    case Pop =>
      if s.queue == [] then At(s, i, Unlock(None))
      else At(s, i, Unlock(Some(s.queue[0]))).(
        queue := s.queue[1..], popped := s.popped + [s.queue[0]])
    case Unlock(node) => At(s, i, if node.Some? then Run(node.value) else Check).(mutex := None)
    case Run(job) => At(s, i, Check).(executed := s.executed + [job])
  }

  function MoveSubmitter(s: State, i: nat): State
    requires Enabled(s, Move(ASubmitter(i)))
  {
    match s.submitters[i]
    case AddLock(job) =>
      s.(submitters := s.submitters[i := AddAppend(job)], mutex := Some(ASubmitter(i)))
    case AddAppend(job) =>
      s.(submitters := s.submitters[i := AddUnlock],
         queue := s.queue + [job], submitted := s.submitted + [job])
    case AddUnlock => s.(submitters := s.submitters[i := Idle], mutex := None)
  }

  function MoveOwner(s: State): State
    requires Enabled(s, Move(TheOwner))
  {
    match s.owner
    case Starting =>
      if |s.workers| < s.maxThreads then s.(workers := s.workers + [Worker(true, Check)])
      else s.(owner := Ready)
    case Ready => s.(owner := Stopping(0))
    case Stopping(i) =>
      if i < |s.workers| then
        s.(workers := s.workers[i := s.workers[i].(running := false)], owner := Waiting(i))
      else s.(owner := DrainLock)
    case Waiting(i) => s.(owner := Stopping(i + 1))
    case DrainLock => s.(owner := Draining, mutex := Some(TheOwner))
    case Draining =>
      if s.queue == [] then s.(owner := DrainUnlock)
      else s.(queue := s.queue[1..], dropped := s.dropped + [s.queue[0]])
    case DrainUnlock => s.(owner := Freed, mutex := None)
  }

  predicate CanRun(s: State, steps: seq<Step>)
    decreases |steps|
  {
    steps == [] || (Enabled(s, steps[0]) && CanRun(Do(s, steps[0]), steps[1..]))
  }

  function After(s: State, steps: seq<Step>): State
    requires CanRun(s, steps)
    decreases |steps|
  {
    if steps == [] then s else After(Do(s, steps[0]), steps[1..])
  }

  /** Some interleaving of some pool's steps leads here. */
  ghost predicate Reachable(s: State) {
    exists maxThreads: nat, submitters: nat, steps ::
      CanRun(Initial(maxThreads, submitters), steps) &&
      s == After(Initial(maxThreads, submitters), steps)
  }

  // ---------- The invariant ----------

  /** Between its lock and its unlock. */
  predicate Critical(s: State, p: Party) {
    match p
    case AWorker(i) => i < |s.workers| && (s.workers[i].pc.Pop? || s.workers[i].pc.Unlock?)
    case ASubmitter(i) =>
      i < |s.submitters| && (s.submitters[i].AddAppend? || s.submitters[i].AddUnlock?)
    case TheOwner => s.owner.Draining? || s.owner.DrainUnlock?
  }

  ghost predicate LockInv(s: State) {
    forall p: Party :: Critical(s, p) <==> s.mutex == Some(p)
  }

  /** How many workers the owner has told to stop, and how many of those it has seen exit. */
  function Stopped(s: State): nat {
    match s.owner
    case Starting => 0
    case Ready => 0
    case Stopping(i) => i
    case Waiting(i) => i + 1
    case _ => s.maxThreads
  }

  function Gone(s: State): nat {
    if s.owner.Waiting? then s.owner.i else Stopped(s)
  }

  predicate Drained(s: State) {
    s.owner.Draining? || s.owner.DrainUnlock? || s.owner.Freed?
  }

  predicate PhaseInv(s: State) {
    && (if s.owner.Starting? then |s.workers| <= s.maxThreads else |s.workers| == s.maxThreads)
    && Stopped(s) <= s.maxThreads
    && (forall i | 0 <= i < |s.workers| :: s.workers[i].running <==> i >= Stopped(s))
    && (forall i | 0 <= i < |s.workers| :: i < Gone(s) ==> s.workers[i].pc.Exited?)
    && (forall i | 0 <= i < |s.workers| :: s.workers[i].pc.Exited? ==> !s.workers[i].running)
    && (!Drained(s) ==> s.dropped == [])
    && (s.owner.DrainUnlock? ==> s.queue == [])
  }

  predicate OrderInv(s: State) {
    s.submitted == s.popped + s.dropped + s.queue
  }

  /** The job a worker holds between popping it and finishing it. */
  function Held(w: Worker): multiset<Job> {
    match w.pc
    case Unlock(Some(job)) => multiset{job}
    case Run(job) => multiset{job}
    case _ => multiset{}
  }

  function InFlight(workers: seq<Worker>): multiset<Job> {
    if workers == [] then multiset{}
    else InFlight(workers[..|workers| - 1]) + Held(workers[|workers| - 1])
  }

  ghost predicate CountInv(s: State) {
    multiset(s.popped) == multiset(s.executed) + InFlight(s.workers)
  }

  /** The job of a call that has not appended it yet. */
  function CallJob(c: Submitter): multiset<Job> {
    match c
    case AddLock(job) => multiset{job}
    case AddAppend(job) => multiset{job}
    case _ => multiset{}
  }

  function InCalls(submitters: seq<Submitter>): multiset<Job> {
    if submitters == [] then multiset{}
    else InCalls(submitters[..|submitters| - 1]) + CallJob(submitters[|submitters| - 1])
  }

  ghost predicate CallInv(s: State) {
    multiset(s.requested) == multiset(s.submitted) + InCalls(s.submitters)
  }

  ghost predicate Inv(s: State) {
    LockInv(s) && PhaseInv(s) && OrderInv(s) && CountInv(s) && CallInv(s)
  }

  // ---------- Every step keeps the invariant ----------

  function Mover(step: Step): Party {
    match step
    case Begin(i, _) => ASubmitter(i)
    case Move(p) => p
  }

  lemma OthersStay(s: State, step: Step, p: Party)
    requires Enabled(s, step) && p != Mover(step)
    ensures Critical(Do(s, step), p) <==> Critical(s, p)
  {
  }

  lemma LockKept(s: State, step: Step)
    requires LockInv(s) && Enabled(s, step)
    ensures LockInv(Do(s, step))
  {
    var t, mover := Do(s, step), Mover(step);
    forall p: Party
      ensures Critical(t, p) <==> t.mutex == Some(p)
    {
      assert Critical(s, p) <==> s.mutex == Some(p);
      assert Critical(s, mover) <==> s.mutex == Some(mover);
      if p != mover {
        OthersStay(s, step, p);
      }
    }
  }

  lemma PhaseKeptByWorker(s: State, i: nat)
    requires LockInv(s) && PhaseInv(s) && Enabled(s, Move(AWorker(i)))
    ensures PhaseInv(Do(s, Move(AWorker(i))))
  {
    hide LockInv;
    assert i >= Gone(s);
    var t := MoveWorker(s, i);
    assert t.owner == s.owner && t.submitters == s.submitters && t.dropped == s.dropped;
    assert t.workers == s.workers[i := t.workers[i]];
    assert t.workers[i].running == s.workers[i].running;
  }

  lemma PhaseKeptBySubmitter(s: State, i: nat)
    requires LockInv(s) && PhaseInv(s) && Enabled(s, Move(ASubmitter(i)))
    ensures PhaseInv(Do(s, Move(ASubmitter(i))))
  {
    hide LockInv;
    if s.submitters[i].AddAppend? {
      assert Critical(s, ASubmitter(i)) && !Critical(s, TheOwner) by { HoldersEqual(s, i); }
    }
  }

  lemma HoldersEqual(s: State, i: nat)
    requires LockInv(s) && Critical(s, ASubmitter(i))
    ensures !Critical(s, TheOwner)
  {
  }

  lemma PhaseKeptByOwner(s: State)
    requires PhaseInv(s) && Enabled(s, Move(TheOwner))
    ensures PhaseInv(Do(s, Move(TheOwner)))
  {
  }

  lemma PhaseKept(s: State, step: Step)
    requires LockInv(s) && PhaseInv(s) && Enabled(s, step)
    ensures PhaseInv(Do(s, step))
  {
    hide LockInv, MoveWorker, MoveSubmitter, MoveOwner;
    match step
    case Begin(_, _) =>
    case Move(AWorker(i)) => PhaseKeptByWorker(s, i);
    case Move(ASubmitter(i)) => PhaseKeptBySubmitter(s, i);
    case Move(TheOwner) => PhaseKeptByOwner(s);
  }

  lemma OrderKeptByWorker(s: State, i: nat)
    requires PhaseInv(s) && OrderInv(s) && Enabled(s, Move(AWorker(i)))
    ensures OrderInv(MoveWorker(s, i))
  {
    if s.workers[i].pc.Pop? && s.queue != [] {
      assert s.dropped == [];
      assert s.queue == [s.queue[0]] + s.queue[1..];
    }
  }

  lemma OrderKeptByOwner(s: State)
    requires OrderInv(s) && Enabled(s, Move(TheOwner))
    ensures OrderInv(MoveOwner(s))
  {
    if s.owner.Draining? && s.queue != [] {
      assert s.queue == [s.queue[0]] + s.queue[1..];
    }
  }

  lemma OrderKept(s: State, step: Step)
    requires PhaseInv(s) && OrderInv(s) && Enabled(s, step)
    ensures OrderInv(Do(s, step))
  {
    hide PhaseInv, MoveWorker, MoveOwner;
    match step
    case Move(AWorker(i)) => OrderKeptByWorker(s, i);
    case Move(TheOwner) => OrderKeptByOwner(s);
    case _ =>
  }

  lemma AddBoth(a: multiset<Job>, h: multiset<Job>, b: multiset<Job>, c: multiset<Job>,
                x: multiset<Job>)
    requires a + h == b + c
    ensures a + x + h == b + x + c
  {
    assert a + x + h == a + h + x;
    assert b + x + c == b + c + x;
  }

  lemma InFlightSplit(workers: seq<Worker>)
    requires workers != []
    ensures InFlight(workers) == InFlight(workers[..|workers| - 1]) + Held(workers[|workers| - 1])
  {
  }

  lemma {:induction false} InFlightUpdate(workers: seq<Worker>, i: nat, w: Worker)
    requires i < |workers|
    ensures InFlight(workers[i := w]) + Held(workers[i]) == InFlight(workers) + Held(w)
  {
    hide InFlight, Held;
    var n := |workers| - 1;
    InFlightSplit(workers);
    InFlightSplit(workers[i := w]);
    if i < n {
      assert workers[i := w][..n] == workers[..n][i := w];
      InFlightUpdate(workers[..n], i, w);
      AddBoth(InFlight(workers[..n][i := w]), Held(workers[i]),
              InFlight(workers[..n]), Held(w), Held(workers[n]));
    } else {
      assert workers[i := w][..n] == workers[..n];
    }
  }

  lemma InFlightSpawn(workers: seq<Worker>, w: Worker)
    ensures InFlight(workers + [w]) == InFlight(workers) + Held(w)
  {
    assert (workers + [w])[..|workers|] == workers;
  }

  lemma Cancel(a: multiset<Job>, b: multiset<Job>, c: multiset<Job>)
    requires a + c == b + c
    ensures a == b
  {
    assert a == (a + c) - c && b == (b + c) - c;
  }

  lemma InFlightSame(workers: seq<Worker>, i: nat, w: Worker)
    requires i < |workers| && Held(workers[i]) == Held(w)
    ensures InFlight(workers[i := w]) == InFlight(workers)
  {
    InFlightUpdate(workers, i, w);
    Cancel(InFlight(workers[i := w]), InFlight(workers), Held(w));
  }

  lemma CountKeptByRun(s: State, i: nat)
    requires CountInv(s) && Enabled(s, Move(AWorker(i))) && s.workers[i].pc.Run?
    ensures CountInv(MoveWorker(s, i))
  {
    hide InFlight;
    var t, job := MoveWorker(s, i), s.workers[i].pc.job;
    InFlightUpdate(s.workers, i, t.workers[i]);
    assert InFlight(t.workers) + multiset{job} == InFlight(s.workers);
    assert multiset(t.executed) == multiset(s.executed) + multiset{job};
  }

  lemma CountKeptByPop(s: State, i: nat)
    requires CountInv(s) && Enabled(s, Move(AWorker(i))) && s.workers[i].pc.Pop? && s.queue != []
    ensures CountInv(MoveWorker(s, i))
  {
    hide InFlight;
    var t, job := MoveWorker(s, i), s.queue[0];
    InFlightUpdate(s.workers, i, t.workers[i]);
    assert InFlight(t.workers) == InFlight(s.workers) + multiset{job};
    assert multiset(t.popped) == multiset(s.popped) + multiset{job};
  }

  lemma CountKeptByWorker(s: State, i: nat)
    requires CountInv(s) && Enabled(s, Move(AWorker(i)))
    ensures CountInv(MoveWorker(s, i))
  {
    hide InFlight, CountInv;
    var t, pc := MoveWorker(s, i), s.workers[i].pc;
    if pc.Run? {
      CountKeptByRun(s, i);
    } else if pc.Pop? && s.queue != [] {
      CountKeptByPop(s, i);
    } else {
      assert t.workers == s.workers[i := t.workers[i]];
      InFlightSame(s.workers, i, t.workers[i]);
      CountSame(s, t);
    }
  }

  lemma CountSame(s: State, t: State)
    requires CountInv(s) && s.popped == t.popped && s.executed == t.executed
    requires InFlight(s.workers) == InFlight(t.workers)
    ensures CountInv(t)
  {
  }

  lemma CountKeptByOwner(s: State)
    requires CountInv(s) && Enabled(s, Move(TheOwner))
    ensures CountInv(MoveOwner(s))
  {
    hide InFlight, CountInv;
    var t := MoveOwner(s);
    if s.owner.Starting? && |s.workers| < s.maxThreads {
      InFlightSpawn(s.workers, Worker(true, Check));
    } else if s.owner.Stopping? && s.owner.i < |s.workers| {
      InFlightSame(s.workers, s.owner.i, t.workers[s.owner.i]);
    }
    CountSame(s, t);
  }

  lemma CountKept(s: State, step: Step)
    requires CountInv(s) && Enabled(s, step)
    ensures CountInv(Do(s, step))
  {
    hide InFlight, CountInv, MoveWorker, MoveOwner;
    match step
    case Move(AWorker(i)) => CountKeptByWorker(s, i);
    case Move(TheOwner) => CountKeptByOwner(s);
    case _ => CountSame(s, Do(s, step));
  }

  lemma InCallsSplit(submitters: seq<Submitter>)
    requires submitters != []
    ensures InCalls(submitters) ==
            InCalls(submitters[..|submitters| - 1]) + CallJob(submitters[|submitters| - 1])
  {
  }

  lemma {:induction false} InCallsUpdate(submitters: seq<Submitter>, i: nat, c: Submitter)
    requires i < |submitters|
    ensures InCalls(submitters[i := c]) + CallJob(submitters[i]) == InCalls(submitters) + CallJob(c)
  {
    hide InCalls, CallJob;
    var n := |submitters| - 1;
    InCallsSplit(submitters);
    InCallsSplit(submitters[i := c]);
    if i < n {
      assert submitters[i := c][..n] == submitters[..n][i := c];
      InCallsUpdate(submitters[..n], i, c);
      AddBoth(InCalls(submitters[..n][i := c]), CallJob(submitters[i]),
              InCalls(submitters[..n]), CallJob(c), CallJob(submitters[n]));
    } else {
      assert submitters[i := c][..n] == submitters[..n];
    }
  }

  lemma CallKeptByBegin(s: State, i: nat, job: Job)
    requires CallInv(s) && Enabled(s, Begin(i, job))
    ensures CallInv(Do(s, Begin(i, job)))
  {
    hide InCalls;
    InCallsUpdate(s.submitters, i, AddLock(job));
    assert InCalls(s.submitters[i := AddLock(job)]) == InCalls(s.submitters) + multiset{job};
    assert multiset(s.requested + [job]) == multiset(s.requested) + multiset{job};
  }

  lemma CallKeptBySubmitter(s: State, i: nat)
    requires CallInv(s) && Enabled(s, Move(ASubmitter(i)))
    ensures CallInv(MoveSubmitter(s, i))
  {
    hide InCalls;
    var t := MoveSubmitter(s, i);
    InCallsUpdate(s.submitters, i, t.submitters[i]);
    if s.submitters[i].AddAppend? {
      var job := s.submitters[i].job;
      assert InCalls(t.submitters) + multiset{job} == InCalls(s.submitters);
      assert multiset(t.submitted) == multiset(s.submitted) + multiset{job};
    } else {
      Cancel(InCalls(t.submitters), InCalls(s.submitters), CallJob(s.submitters[i]));
    }
  }

  lemma CallKept(s: State, step: Step)
    requires CallInv(s) && Enabled(s, step)
    ensures CallInv(Do(s, step))
  {
    hide InCalls;
    match step
    case Begin(i, job) => CallKeptByBegin(s, i, job);
    case Move(ASubmitter(i)) => CallKeptBySubmitter(s, i);
    case Move(_) =>
  }

  lemma {:induction false} NoCalls(submitters: seq<Submitter>)
    requires forall i | 0 <= i < |submitters| :: submitters[i].Idle?
    ensures InCalls(submitters) == multiset{}
  {
    if submitters != [] {
      NoCalls(submitters[..|submitters| - 1]);
    }
  }

  lemma StepKeeps(s: State, step: Step)
    requires Inv(s) && Enabled(s, step)
    ensures Inv(Do(s, step))
  {
    LockKept(s, step);
    PhaseKept(s, step);
    OrderKept(s, step);
    CountKept(s, step);
    CallKept(s, step);
  }

  lemma {:induction false} RunKeeps(s: State, steps: seq<Step>)
    requires Inv(s) && CanRun(s, steps)
    ensures Inv(After(s, steps))
    decreases |steps|
  {
    hide Inv, Do, Enabled;
    if steps != [] {
      StepKeeps(s, steps[0]);
      RunKeeps(Do(s, steps[0]), steps[1..]);
    }
  }

  lemma InitialInv(maxThreads: nat, submitters: nat)
    ensures Inv(Initial(maxThreads, submitters))
  {
    NoCalls(seq(submitters, i => Idle));
  }

  lemma ReachableInv(s: State)
    requires Reachable(s)
    ensures Inv(s)
  {
    hide Inv, Initial;
    var maxThreads: nat, submitters: nat, steps :|
      CanRun(Initial(maxThreads, submitters), steps) &&
      s == After(Initial(maxThreads, submitters), steps);
    InitialInv(maxThreads, submitters);
    RunKeeps(Initial(maxThreads, submitters), steps);
  }

  // ---------- What holds in every reachable state ----------

  /** No job is lost and none is invented: each one passed to add_job is still in the call or
      submitted, and each one submitted is queued, in a worker's hands, executed or dropped. */
  lemma Conservation(s: State)
    requires Reachable(s)
    ensures multiset(s.requested) == multiset(s.submitted) + InCalls(s.submitters)
    ensures multiset(s.submitted) ==
            multiset(s.queue) + InFlight(s.workers) + multiset(s.executed) + multiset(s.dropped)
  {
    hide LockInv, InFlight, PhaseInv, InCalls;
    ReachableInv(s);
    assert multiset(s.submitted) == multiset(s.popped + s.dropped) + multiset(s.queue);
  }

  /** At most one party is between its lock and its unlock. */
  lemma MutualExclusion(s: State, p: Party, q: Party)
    requires Reachable(s) && Critical(s, p) && Critical(s, q)
    ensures p == q
  {
    ReachableInv(s);
  }

  /** Whoever changes the queue holds the mutex; once the pool is freed that can only be a
      call of add_job. */
  lemma QueueGuarded(s: State, step: Step)
    requires Reachable(s) && Enabled(s, step)
    requires Do(s, step).queue != s.queue
    ensures s.mutex == Some(Mover(step))
    ensures s.owner.Freed? ==> Mover(step).ASubmitter?
  {
    ReachableInv(s);
    assert Critical(s, Mover(step));
  }

  /** Jobs are popped in the order they were submitted, and until the queue is drained
      nothing is dropped. */
  lemma PoppedInOrder(s: State)
    requires Reachable(s)
    ensures s.popped <= s.submitted
    ensures !Drained(s) ==> s.submitted == s.popped + s.queue
  {
    hide LockInv, CountInv;
    ReachableInv(s);
    assert s.submitted == s.popped + (s.dropped + s.queue);
  }

  lemma {:induction false} NothingHeld(workers: seq<Worker>)
    requires forall i | 0 <= i < |workers| :: workers[i].pc.Exited?
    ensures InFlight(workers) == multiset{}
  {
    if workers != [] {
      NothingHeld(workers[..|workers| - 1]);
    }
  }

  lemma NobodyWorks(s: State)
    requires PhaseInv(s) && (s.owner.DrainLock? || Drained(s))
    ensures InFlight(s.workers) == multiset{}
  {
    hide InFlight;
    NothingHeld(s.workers);
  }

  /** Once every worker has been waited for nothing is in flight: the jobs executed are exactly
      a prefix of those submitted, the next ones are dropped, and what is appended after that
      stays where it is. */
  lemma Shutdown(s: State)
    requires Inv(s)
    requires s.owner.DrainLock? || Drained(s)
    ensures InFlight(s.workers) == multiset{}
    ensures exists n ::
              && 0 <= n <= |s.submitted|
              && multiset(s.executed) == multiset(s.submitted[..n])
              && s.submitted[n..] == s.dropped + s.queue
  {
    hide LockInv, PhaseInv, InFlight, InCalls;
    NobodyWorks(s);
    var n := |s.popped|;
    assert s.submitted == s.popped + (s.dropped + s.queue);
    assert s.submitted[..n] == s.popped && s.submitted[n..] == s.dropped + s.queue;
  }

  // ---------- Calls that are late ----------

  predicate NoBegin(steps: seq<Step>) {
    forall k | 0 <= k < |steps| :: steps[k].Move?
  }

  /** The last step of the run frees the pool. */
  predicate FreesLast(s: State, steps: seq<Step>)
    requires CanRun(s, steps)
    decreases |steps|
  {
    && steps != [] && !s.owner.Freed?
    && var t := Do(s, steps[0]);
       if t.owner.Freed? then |steps| == 1 else FreesLast(t, steps[1..])
  }

  /** While the owner drains the queue no other party can move; calls can only begin. */
  lemma DrainStep(s: State, step: Step)
    requires Inv(s) && Enabled(s, step)
    requires s.owner.Draining? || s.owner.DrainUnlock?
    ensures step.Begin? || step == Move(TheOwner)
    ensures AllIdle(Do(s, step)) <==> AllIdle(s) && step.Move?
    ensures Drained(Do(s, step))
    ensures Do(s, step).owner.Freed? ==> Do(s, step).queue == [] && Do(s, step).mutex.None?
  {
    hide OrderInv, CountInv, CallInv;
    assert Critical(s, TheOwner);
    assert forall i | 0 <= i < |s.submitters| :: !Critical(s, ASubmitter(i));
    if step.Begin? {
      assert Do(s, step).submitters[step.i].AddLock?;
    }
  }

  lemma {:induction false} WhileDraining(s: State, steps: seq<Step>)
    requires Inv(s) && (s.owner.Draining? || s.owner.DrainUnlock?)
    requires CanRun(s, steps) && FreesLast(s, steps)
    ensures var t := After(s, steps);
            && Inv(t) && t.owner.Freed? && t.queue == [] && t.mutex.None?
            && (AllIdle(t) <==> AllIdle(s) && NoBegin(steps))
    decreases |steps|
  {
    hide Inv, Do, Enabled, AllIdle;
    var t := Do(s, steps[0]);
    DrainStep(s, steps[0]);
    StepKeeps(s, steps[0]);
    assert steps == [steps[0]] + steps[1..];
    if !t.owner.Freed? {
      WhileDraining(t, steps[1..]);
    }
  }

  /** Once the pool is freed some party can still step if and only if a call is in progress. */
  lemma FreedIsFinal(s: State)
    requires Inv(s) && s.owner.Freed?
    ensures (exists p :: Enabled(s, Move(p))) <==> !AllIdle(s)
    ensures forall steps | AllIdle(s) && CanRun(s, steps) && NoBegin(steps) :: steps == []
  {
    hide OrderInv, CountInv, CallInv;
    if !AllIdle(s) {
      var i :| 0 <= i < |s.submitters| && !s.submitters[i].Idle?;
      if s.mutex.Some? {
        assert Critical(s, s.mutex.value);
        assert Enabled(s, Move(s.mutex.value));
      } else {
        assert Enabled(s, Move(ASubmitter(i)));
      }
    }
  }

  lemma {:induction false} WaitingCall(submitters: seq<Submitter>, i: nat)
    requires i < |submitters| && submitters[i].AddLock?
    ensures submitters[i].job in InCalls(submitters)
  {
    var n := |submitters| - 1;
    if i < n {
      WaitingCall(submitters[..n], i);
    }
  }

  /** When the pool is freed every job submitted has been executed or dropped. Someone still
      steps on it, and a job was asked for and not submitted, exactly if a call of add_job was
      in progress when the owner locked the mutex to drain the queue, or began after that. */
  lemma LateCalls(s: State, steps: seq<Step>)
    requires Reachable(s) && s.owner.DrainLock? && CanRun(s, steps)
    requires steps != [] && steps[0] == Move(TheOwner) && FreesLast(s, steps)
    ensures var t := After(s, steps);
            && t.owner.Freed? && t.queue == [] && t.submitted == t.popped + t.dropped
            && multiset(t.executed) == multiset(t.popped)
            && ((exists p :: Enabled(t, Move(p))) <==> !AllIdle(s) || !NoBegin(steps))
            && (multiset(t.requested) == multiset(t.submitted) <==> AllIdle(s) && NoBegin(steps))
  {
    hide Inv, Enabled, AllIdle;
    ReachableInv(s);
    var drain, t := Do(s, steps[0]), After(s, steps);
    StepKeeps(s, steps[0]);
    assert steps == [steps[0]] + steps[1..];
    assert AllIdle(drain) <==> AllIdle(s) by { SameSubmitters(s, drain); }
    WhileDraining(drain, steps[1..]);
    FreedIsFinal(t);
    AtTheEnd(t);
  }

  lemma SameSubmitters(s: State, t: State)
    requires s.submitters == t.submitters
    ensures AllIdle(s) <==> AllIdle(t)
  {
  }

  lemma AtTheEnd(t: State)
    requires Inv(t) && t.owner.Freed? && t.queue == [] && t.mutex.None?
    ensures t.submitted == t.popped + t.dropped && multiset(t.executed) == multiset(t.popped)
    ensures multiset(t.requested) == multiset(t.submitted) <==> AllIdle(t)
  {
    hide InFlight, InCalls;
    NobodyWorks(t);
    if AllIdle(t) {
      NoCalls(t.submitters);
    } else {
      var i :| 0 <= i < |t.submitters| && !t.submitters[i].Idle?;
      assert !Critical(t, ASubmitter(i));
      WaitingCall(t.submitters, i);
    }
    var a := multiset(t.submitted);
    assert a + InCalls(t.submitters) == a ==> InCalls(t.submitters) == (a + InCalls(t.submitters)) - a;
  }

  /** A pool without workers and one caller, who adds job 7. */
  function OneCall(owner: Owner, call: Submitter, mutex: Option<Party>, queue: seq<Job>): State {
    State(0, [], [call], owner, mutex, queue, [7], queue, [], [], [])
  }

  lemma OwnerGoesOn(rest: seq<Step>)
    requires CanRun(OneCall(Freed, AddLock(7), None, []), rest)
    ensures var s := OneCall(Ready, AddLock(7), None, []);
            var steps := seq(5, i => Move(TheOwner)) + rest;
            CanRun(s, steps) && After(s, steps) == After(OneCall(Freed, AddLock(7), None, []), rest)
  {
    hide CanRun, After;
    var owner, call := Move(TheOwner), AddLock(7);
    RunFirst(OneCall(DrainUnlock, call, Some(TheOwner), []), owner, rest);
    RunFirst(OneCall(Draining, call, Some(TheOwner), []), owner, [owner] + rest);
    RunFirst(OneCall(DrainLock, call, None, []), owner, [owner] + ([owner] + rest));
    RunFirst(OneCall(Stopping(0), call, None, []), owner, [owner] + ([owner] + ([owner] + rest)));
    RunFirst(OneCall(Ready, call, None, []), owner,
             [owner] + ([owner] + ([owner] + ([owner] + rest))));
    assert seq(5, i => Move(TheOwner)) + rest ==
           [owner] + ([owner] + ([owner] + ([owner] + ([owner] + rest))));
  }

  /** Such a run: a call waits for the mutex while the owner frees the pool, and then appends
      its job to the freed queue. */
  lemma AppendAfterFree()
    ensures exists steps ::
              && CanRun(Initial(0, 1), steps)
              && After(Initial(0, 1), steps).owner.Freed? && After(Initial(0, 1), steps).queue == [7]
  {
    hide CanRun, After;
    var owner, call, begin := Move(TheOwner), Move(ASubmitter(0)), Begin(0, 7);
    assert [AddLock(7)][0 := AddAppend(7)] == [AddAppend(7)];
    RunOne(OneCall(Freed, AddAppend(7), Some(ASubmitter(0)), []), call);
    RunFirst(OneCall(Freed, AddLock(7), None, []), call, [call]);
    OwnerGoesOn([call] + [call]);
    var rest := seq(5, i => Move(TheOwner)) + ([call] + [call]);
    var ready := Do(Initial(0, 1), owner);
    assert ready.submitters == [Idle] && Do(ready, begin) == OneCall(Ready, AddLock(7), None, []);
    RunFirst(ready, begin, rest);
    RunFirst(Initial(0, 1), owner, [begin] + rest);
    var end := After(Initial(0, 1), [owner] + ([begin] + rest));
    assert end.owner.Freed? && end.queue == [7];
  }

  lemma RunOne(s: State, step: Step)
    requires Enabled(s, step)
    ensures CanRun(s, [step]) && After(s, [step]) == Do(s, step)
  {
  }

  lemma RunFirst(s: State, step: Step, rest: seq<Step>)
    requires Enabled(s, step) && CanRun(Do(s, step), rest)
    ensures CanRun(s, [step] + rest) && After(s, [step] + rest) == After(Do(s, step), rest)
  {
    assert ([step] + rest)[1..] == rest;
  }

  /** A job submitted once is executed at most once, and never if it was dropped or is still
      queued or in a worker's hands. */
  lemma AtMostOnce(s: State, job: Job)
    requires Reachable(s)
    requires multiset(s.submitted)[job] <= 1
    ensures multiset(s.executed)[job] <= 1
    ensures job in s.executed ==>
              job !in s.queue && job !in s.dropped && job !in InFlight(s.workers)
  {
    Conservation(s);
    hide InFlight;
    assert job in s.executed <==> job in multiset(s.executed);
    assert job in s.queue <==> job in multiset(s.queue);
    assert job in s.dropped <==> job in multiset(s.dropped);
  }

  // ---------- What becomes of the front job ----------

  /** How far worker `i` is with a job: it holds the mutex and the job is in front of the queue;
      it has popped it; it is about to run it; the job has been run. */
  ghost predicate AtStage(s: State, i: nat, job: Job, stage: nat) {
    && i < |s.workers|
    && match stage
       case 0 => s.workers[i].pc == Pop && s.queue != [] && s.queue[0] == job
       case 1 => s.workers[i].pc == Unlock(Some(job))
       case 2 => s.workers[i].pc == Run(job)
       case _ => job in s.executed
  }

  lemma StageKept(s: State, step: Step, i: nat, job: Job, stage: nat)
    requires LockInv(s) && Enabled(s, step) && AtStage(s, i, job, stage) && step != Move(AWorker(i))
    ensures AtStage(Do(s, step), i, job, stage)
  {
    if stage == 0 {
      assert Critical(s, AWorker(i));
      assert step.Move? ==> !Critical(s, step.party);
    }
  }

  lemma StageNext(s: State, i: nat, job: Job, stage: nat)
    requires AtStage(s, i, job, stage) && stage < 3 && Enabled(s, Move(AWorker(i)))
    ensures AtStage(Do(s, Move(AWorker(i))), i, job, stage + 1)
    ensures stage == 2 ==> Do(s, Move(AWorker(i))).executed == s.executed + [job]
  {
  }

  /** A worker that has locked the mutex while jobs are queued takes exactly the front job: its
      next step pops it, the one after that unlocks, the third runs it, whatever the others do
      in between. */
  lemma {:induction false} FrontJobIsRun(s: State, steps: seq<Step>, i: nat, job: Job, stage: nat)
    requires Inv(s) && CanRun(s, steps) && AtStage(s, i, job, stage)
    requires stage + StepsOf(AWorker(i), steps) <= 3
    ensures AtStage(After(s, steps), i, job, stage + StepsOf(AWorker(i), steps))
    decreases |steps|
  {
    hide LockInv, PhaseInv, OrderInv, CountInv, CallInv, AtStage, Do, Enabled;
    if steps != [] {
      StepKeeps(s, steps[0]);
      if steps[0] == Move(AWorker(i)) {
        StageNext(s, i, job, stage);
        FrontJobIsRun(Do(s, steps[0]), steps[1..], i, job, stage + 1);
      } else {
        StageKept(s, steps[0], i, job, stage);
        FrontJobIsRun(Do(s, steps[0]), steps[1..], i, job, stage);
      }
    }
  }

  /** Locking the mutex brings a worker to the first stage, with the job in front at that time. */
  lemma LockTakesFront(s: State, i: nat)
    requires Enabled(s, Move(AWorker(i))) && s.workers[i].pc.Lock? && s.queue != []
    ensures AtStage(Do(s, Move(AWorker(i))), i, s.queue[0], 0)
  {
  }

  /** A critical section entered with a non-empty queue ends with exactly the front job in that
      worker's hands, and the worker's next step runs it. */
  lemma WorkerTakesFront(s: State, steps: seq<Step>, i: nat)
    requires Reachable(s) && Enabled(s, Move(AWorker(i))) && s.workers[i].pc.Lock? && s.queue != []
    requires CanRun(Do(s, Move(AWorker(i))), steps)
    ensures var t := After(Do(s, Move(AWorker(i))), steps);
            && (StepsOf(AWorker(i), steps) == 2 ==> i < |t.workers| && t.workers[i].pc == Run(s.queue[0]))
            && (StepsOf(AWorker(i), steps) == 3 ==> s.queue[0] in t.executed)
  {
    hide Inv, Do, Enabled;
    ReachableInv(s);
    var step := Move(AWorker(i));
    StepKeeps(s, step);
    LockTakesFront(s, i);
    if StepsOf(AWorker(i), steps) <= 3 {
      FrontJobIsRun(Do(s, step), steps, i, s.queue[0], 0);
    }
  }

  // ---------- Shutting down ----------

  /** How many more steps a worker takes once its flag is cleared. */
  function StepsLeft(pc: WorkerPc): nat {
    match pc
    case Exited => 0
    case Check => 1
    case Run(_) => 2
    case Unlock(_) => 3
    case Pop => 4
    case Lock => 5
  }

  function StepsOf(p: Party, steps: seq<Step>): nat {
    if steps == [] then 0
    else (if steps[0] == Move(p) then 1 else 0) + StepsOf(p, steps[1..])
  }

  lemma StoppedStep(s: State, step: Step, i: nat)
    requires Enabled(s, step) && i < |s.workers| && !s.workers[i].running
    ensures var t := Do(s, step);
            && i < |t.workers| && !t.workers[i].running
            && StepsLeft(t.workers[i].pc) + StepsOf(AWorker(i), [step])
               <= StepsLeft(s.workers[i].pc)
  {
    assert [step][1..] == [];
  }

  /** A worker told to stop takes at most five more steps of its own, whatever the others do,
      in every run. */
  lemma {:induction false} StoppedWorkerExits(s: State, steps: seq<Step>, i: nat)
    requires CanRun(s, steps) && i < |s.workers| && !s.workers[i].running
    ensures StepsOf(AWorker(i), steps) <= StepsLeft(s.workers[i].pc) <= 5
    ensures StepsOf(AWorker(i), steps) == StepsLeft(s.workers[i].pc) ==>
              i < |After(s, steps).workers| && After(s, steps).workers[i].pc.Exited?
    decreases |steps|
  {
    hide Do, Enabled;
    if steps != [] {
      StoppedStep(s, steps[0], i);
      assert StepsOf(AWorker(i), [steps[0]]) == if steps[0] == Move(AWorker(i)) then 1 else 0;
      StoppedWorkerExits(Do(s, steps[0]), steps[1..], i);
    }
  }

  // ---------- The pool can always be shut down ----------

  /** Steps the submitters still have to take to finish the calls they are in. */
  function CallsLeft(submitters: seq<Submitter>): nat {
    if submitters == [] then 0
    else CallsLeft(submitters[..|submitters| - 1]) + CallLeft(submitters[|submitters| - 1])
  }

  function CallLeft(c: Submitter): nat {
    match c
    case Idle => 0
    case AddUnlock => 1
    case AddAppend(_) => 2
    case AddLock(_) => 3
  }

  lemma {:induction false} CallsLeftUpdate(submitters: seq<Submitter>, i: nat, c: Submitter)
    requires i < |submitters|
    ensures CallsLeft(submitters[i := c]) ==
            CallsLeft(submitters) - CallLeft(submitters[i]) + CallLeft(c)
  {
    var n := |submitters| - 1;
    if i < n {
      assert submitters[i := c][..n] == submitters[..n][i := c];
      CallsLeftUpdate(submitters[..n], i, c);
    } else {
      assert submitters[i := c][..n] == submitters[..n];
    }
  }

  /** Steps the owner still has to take, apart from dropping jobs. */
  function OwnerLeft(s: State): int {
    match s.owner
    case Starting => 3 * s.maxThreads - |s.workers| + 6
    case Ready => 2 * s.maxThreads + 5
    case Stopping(i) => 2 * (s.maxThreads - i) + 4
    case Waiting(i) => 2 * (s.maxThreads - i) + 3
    case DrainLock => 3
    case Draining => 2
    case DrainUnlock => 1
    case Freed => 0
  }

  function AwaitedLeft(s: State): nat {
    if s.owner.Waiting? && s.owner.i < |s.workers| then StepsLeft(s.workers[s.owner.i].pc) else 0
  }

  function HolderLeft(s: State): nat {
    match s.mutex
    case Some(AWorker(i)) => if i < |s.workers| then StepsLeft(s.workers[i].pc) else 0
    case _ => 0
  }

  function FirstBusy(submitters: seq<Submitter>): (i: nat)
    requires exists k | 0 <= k < |submitters| :: !submitters[k].Idle?
    ensures i < |submitters| && !submitters[i].Idle?
  {
    if !submitters[0].Idle? then 0
    else
      assert exists k | 0 <= k < |submitters[1..]| :: !submitters[1..][k].Idle? by {
        var k :| 0 <= k < |submitters| && !submitters[k].Idle?;
        assert submitters[1..][k - 1] == submitters[k];
      }
      FirstBusy(submitters[1..]) + 1
  }

  /** Who should move next to bring the end nearer: whoever holds the mutex; otherwise whoever
      the owner waits for; otherwise the owner. */
  function Next(s: State): Party {
    if s.mutex.Some? then s.mutex.value
    else if s.owner.Waiting? && s.owner.i < |s.workers| && !s.workers[s.owner.i].pc.Exited? then
      AWorker(s.owner.i)
    else if s.owner.DrainLock? && !AllIdle(s) then ASubmitter(FirstBusy(s.submitters))
    else TheOwner
  }

  /** No reachable state is stuck before the pool is freed. */
  lemma NextEnabled(s: State)
    requires LockInv(s) && PhaseInv(s) && !s.owner.Freed?
    ensures Enabled(s, Move(Next(s)))
  {
    if s.mutex.Some? {
      assert Critical(s, s.mutex.value);
    }
  }

  predicate Less(s: State, t: State) {
    var a, b := CallsLeft(s.submitters), CallsLeft(t.submitters);
    a < b || (a == b && (OwnerLeft(s) < OwnerLeft(t) || (OwnerLeft(s) == OwnerLeft(t) &&
    (|s.queue| < |t.queue| || (|s.queue| == |t.queue| &&
    (AwaitedLeft(s) < AwaitedLeft(t) || (AwaitedLeft(s) == AwaitedLeft(t) &&
    HolderLeft(s) < HolderLeft(t))))))))
  }

  /** The holder of the mutex, or a worker that has been told to stop. */
  lemma WorkerProgresses(s: State, i: nat)
    requires Enabled(s, Move(AWorker(i)))
    requires if s.mutex.Some? then s.mutex == Some(AWorker(i)) && Critical(s, AWorker(i))
             else s.owner == Waiting(i) && !s.workers[i].running
    ensures Less(MoveWorker(s, i), s)
  {
    hide CallsLeft;
  }

  lemma SubmitterProgresses(s: State, i: nat)
    requires Enabled(s, Move(ASubmitter(i)))
    ensures Less(MoveSubmitter(s, i), s)
  {
    hide CallsLeft;
    CallsLeftUpdate(s.submitters, i, MoveSubmitter(s, i).submitters[i]);
  }

  lemma OwnerProgresses(s: State)
    requires PhaseInv(s) && Enabled(s, Move(TheOwner))
    ensures Less(MoveOwner(s), s)
  {
    hide CallsLeft;
  }

  lemma NextProgresses(s: State)
    requires LockInv(s) && PhaseInv(s) && !s.owner.Freed?
    ensures Enabled(s, Move(Next(s))) && Less(Do(s, Move(Next(s))), s)
  {
    hide Less, MoveWorker, MoveSubmitter, MoveOwner;
    NextEnabled(s);
    match Next(s)
    case ASubmitter(i) => SubmitterProgresses(s, i);
    case AWorker(i) =>
      assert s.mutex.Some? ==> Critical(s, AWorker(i));
      WorkerProgresses(s, i);
    case TheOwner => OwnerProgresses(s);
  }

  /** Moving whom Next picks keeps late calls from arising. */
  lemma NextServesCalls(s: State)
    requires Inv(s) && !s.owner.Freed?
    ensures Enabled(s, Move(Next(s)))
    ensures var t := Do(s, Move(Next(s)));
            && (!Drained(s) || AllIdle(s) ==> !Drained(t) || AllIdle(t))
            && (t.owner.Freed? ==> t.queue == [])
  {
    hide OrderInv, CountInv, CallInv;
    NextEnabled(s);
    assert s.mutex.Some? ==> Critical(s, s.mutex.value);
  }

  /** From every reachable state the pool can be brought to its end with no new job added, and
      if the queue is not yet being drained, with every call served. */
  lemma {:induction false} CanFinish(s: State)
    requires Inv(s) && !s.owner.Freed?
    ensures exists steps ::
              && CanRun(s, steps) && NoBegin(steps)
              && var t := After(s, steps);
                 t.owner.Freed? && t.queue == [] && (!Drained(s) || AllIdle(s) ==> AllIdle(t))
    decreases CallsLeft(s.submitters), OwnerLeft(s), |s.queue|, AwaitedLeft(s), HolderLeft(s)
  {
    hide LockInv, PhaseInv, OrderInv, CountInv, CallInv, Do, Enabled, Next, AllIdle;
    var step := Move(Next(s));
    NextProgresses(s);
    NextServesCalls(s);
    StepKeeps(s, step);
    var next := Do(s, step);
    OwnerLeftNat(next);
    if next.owner.Freed? {
      RunOne(s, step);
      assert NoBegin([step]);
    } else {
      CanFinish(next);
      var rest :| CanRun(next, rest) && NoBegin(rest) && After(next, rest).owner.Freed? &&
                  After(next, rest).queue == [] &&
                  (!Drained(next) || AllIdle(next) ==> AllIdle(After(next, rest)));
      RunFirst(s, step, rest);
      assert NoBegin([step] + rest);
    }
  }

  lemma OwnerLeftNat(s: State)
    requires PhaseInv(s)
    ensures OwnerLeft(s) >= 0
  {
  }

  /** So destroying the pool never gets stuck: some further steps free it, and if draining has
      not begun they can be chosen such that each job asked for has been executed or dropped. */
  lemma DestroyCanFinish(s: State)
    requires Reachable(s) && !s.owner.Freed?
    ensures exists steps ::
              && CanRun(s, steps)
              && var t := After(s, steps);
                 && t.owner.Freed? && t.queue == []
                 && t.submitted == t.popped + t.dropped
                 && multiset(t.executed) == multiset(t.popped)
                 && (!Drained(s) ==> multiset(t.requested) == multiset(t.submitted))
  {
    hide LockInv, PhaseInv, OrderInv, CountInv, CallInv, AllIdle;
    ReachableInv(s);
    CanFinish(s);
    var steps :| CanRun(s, steps) && NoBegin(steps) && After(s, steps).owner.Freed? &&
                 After(s, steps).queue == [] &&
                 (!Drained(s) || AllIdle(s) ==> AllIdle(After(s, steps)));
    RunKeeps(s, steps);
    Finished(After(s, steps));
  }

  lemma Finished(t: State)
    requires Inv(t) && t.owner.Freed? && t.queue == []
    ensures t.submitted == t.popped + t.dropped && multiset(t.executed) == multiset(t.popped)
    ensures AllIdle(t) ==> multiset(t.requested) == multiset(t.submitted)
  {
    hide LockInv, PhaseInv, InFlight, InCalls;
    NobodyWorks(t);
    if AllIdle(t) {
      NoCalls(t.submitters);
    }
  }
}
