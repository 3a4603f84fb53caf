/** Endless runs of the thread pool under a fair scheduler: the mutex is always released again,
    every call of add_job returns and the pool is freed. */
module ThreadPoolFairness {
  import opened Bytes
  import opened ThreadPool

  /** A run without end; a move of None stands for a moment in which nobody steps. */
  datatype Run = Endless(states: nat -> State, moves: nat -> Option<Step>)

  ghost predicate StepAt(run: Run, n: nat) {
    match run.moves(n)
    case None => run.states(n + 1) == run.states(n)
    case Some(step) =>
      Enabled(run.states(n), step) && run.states(n + 1) == Do(run.states(n), step)
  }

  ghost predicate IsRun(run: Run) {
    Inv(run.states(0)) && forall n: nat :: StepAt(run, n)
  }

  predicate EnabledAt(run: Run, p: Party, n: nat) {
    Enabled(run.states(n), Move(p))
  }

  predicate MovesAt(run: Run, p: Party, n: nat) {
    run.moves(n) == Some(Move(p))
  }

  ghost predicate EnabledAfter(run: Run, p: Party, n: nat) {
    exists k: nat :: n <= k && EnabledAt(run, p, k)
  }

  ghost predicate MovesAfter(run: Run, p: Party, n: nat) {
    exists k: nat :: n <= k && MovesAt(run, p, k)
  }

  /** If `p` can move again and again, it does move. */
  ghost predicate FairTo(run: Run, p: Party) {
    forall n: nat :: (forall m: nat :: n <= m ==> EnabledAfter(run, p, m)) ==> MovesAfter(run, p, n)
  }

  ghost predicate Fair(run: Run) {
    forall p: Party :: FairTo(run, p)
  }

  /** Fair to workers and callers; the owner need never destroy the pool. */
  ghost predicate FairToOthers(run: Run) {
    forall p: Party :: p != TheOwner ==> FairTo(run, p)
  }

  /** From `n` on the pool is up. */
  ghost predicate StaysReady(run: Run, n: nat) {
    forall k: nat :: n <= k ==> run.states(k).owner.Ready?
  }

  lemma {:induction false} InvAt(run: Run, n: nat)
    requires IsRun(run)
    ensures Inv(run.states(n))
  {
    hide Inv, Enabled, Do;
    if n > 0 {
      InvAt(run, n - 1);
      assert StepAt(run, n - 1);
      if run.moves(n - 1).Some? {
        StepKeeps(run.states(n - 1), run.moves(n - 1).value);
      }
    }
  }

  lemma {:induction false} FirstMove(run: Run, p: Party, n: nat, k: nat) returns (j: nat)
    requires n <= k && MovesAt(run, p, k)
    ensures n <= j <= k && MovesAt(run, p, j)
    ensures forall i | n <= i < j :: !MovesAt(run, p, i)
    decreases k - n
  {
    if MovesAt(run, p, n) {
      j := n;
    } else {
      j := FirstMove(run, p, n + 1, k);
    }
  }

  // ---------- The mutex is released ----------

  /** Steps its holder takes until the mutex is free. */
  function HoldLeft(s: State): nat {
    match s.mutex
    case None => 0
    case Some(AWorker(i)) => if i < |s.workers| && s.workers[i].pc.Pop? then 2 else 1
    case Some(ASubmitter(i)) => if i < |s.submitters| && s.submitters[i].AddAppend? then 2 else 1
    case Some(TheOwner) => if s.owner.Draining? then |s.queue| + 2 else 1
  }

  lemma OthersLeaveHolder(s: State, step: Step)
    requires LockInv(s) && Enabled(s, step) && s.mutex.Some? && step != Move(s.mutex.value)
    ensures Do(s, step).mutex == s.mutex && HoldLeft(Do(s, step)) == HoldLeft(s)
  {
    assert Critical(s, s.mutex.value);
    assert step.Move? ==> !Critical(s, step.party);
    assert step.Begin? ==> !Critical(s, ASubmitter(step.i));
  }

  lemma ReadyOwnerHoldsNothing(s: State)
    requires LockInv(s)
    ensures s.owner.Ready? ==> s.mutex != Some(TheOwner)
  {
    assert Critical(s, TheOwner) <==> s.mutex == Some(TheOwner);
  }

  lemma HolderMoves(s: State)
    requires LockInv(s) && s.mutex.Some?
    ensures Enabled(s, Move(s.mutex.value))
    ensures HoldLeft(Do(s, Move(s.mutex.value))) < HoldLeft(s)
  {
    assert Critical(s, s.mutex.value);
  }

  lemma {:induction false} HeldUntil(run: Run, p: Party, n: nat, j: nat)
    requires IsRun(run) && n <= j && run.states(n).mutex == Some(p)
    requires forall i | n <= i < j :: !MovesAt(run, p, i)
    ensures run.states(j).mutex == Some(p) && HoldLeft(run.states(j)) == HoldLeft(run.states(n))
    decreases j - n
  {
    hide LockInv, PhaseInv, OrderInv, CountInv, CallInv, Enabled, Do, HoldLeft;
    if n < j {
      HeldUntil(run, p, n, j - 1);
      InvAt(run, j - 1);
      assert StepAt(run, j - 1) && !MovesAt(run, p, j - 1);
      if run.moves(j - 1).Some? {
        OthersLeaveHolder(run.states(j - 1), run.moves(j - 1).value);
      }
    }
  }

  /** Whoever holds the mutex gives it back; the owner does not hold it while the pool is up. */
  lemma {:induction false} Released(run: Run, n: nat)
    requires IsRun(run) && FairToOthers(run) && (FairTo(run, TheOwner) || StaysReady(run, n))
    ensures exists m: nat :: n <= m && run.states(m).mutex.None?
    decreases HoldLeft(run.states(n))
  {
    hide LockInv, PhaseInv, OrderInv, CountInv, CallInv, Enabled, Do, HoldLeft;
    if run.states(n).mutex.Some? {
      var p := run.states(n).mutex.value;
      InvAt(run, n);
      ReadyOwnerHoldsNothing(run.states(n));
      assert FairTo(run, p);
      if !MovesAfter(run, p, n) {
        forall m: nat | n <= m
          ensures EnabledAfter(run, p, m)
        {
          HeldUntil(run, p, n, m);
          InvAt(run, m);
          HolderMoves(run.states(m));
          assert EnabledAt(run, p, m);
        }
        assert false;
      }
      var k: nat :| n <= k && MovesAt(run, p, k);
      var j := FirstMove(run, p, n, k);
      HeldUntil(run, p, n, j);
      InvAt(run, j);
      HolderMoves(run.states(j));
      assert StepAt(run, j);
      Released(run, j + 1);
    }
  }

  // ---------- Every call returns ----------

  lemma OthersLeaveCall(s: State, step: Step, i: nat)
    requires Enabled(s, step) && step != Move(ASubmitter(i))
    requires i < |s.submitters| && !s.submitters[i].Idle?
    ensures i < |Do(s, step).submitters| && Do(s, step).submitters[i] == s.submitters[i]
  {
  }

  lemma CallMoves(s: State, i: nat)
    requires Enabled(s, Move(ASubmitter(i)))
    ensures var t := Do(s, Move(ASubmitter(i)));
            i < |t.submitters| && CallLeft(t.submitters[i]) < CallLeft(s.submitters[i])
  {
  }

  lemma {:induction false} CallUntil(run: Run, i: nat, n: nat, j: nat)
    requires IsRun(run) && n <= j
    requires i < |run.states(n).submitters| && !run.states(n).submitters[i].Idle?
    requires forall k | n <= k < j :: !MovesAt(run, ASubmitter(i), k)
    ensures i < |run.states(j).submitters|
    ensures run.states(j).submitters[i] == run.states(n).submitters[i]
    decreases j - n
  {
    hide Inv, Enabled, Do;
    if n < j {
      CallUntil(run, i, n, j - 1);
      assert StepAt(run, j - 1) && !MovesAt(run, ASubmitter(i), j - 1);
      if run.moves(j - 1).Some? {
        OthersLeaveCall(run.states(j - 1), run.moves(j - 1).value, i);
      }
    }
  }

  /** A call of add_job returns, even one that comes too late to be served. */
  lemma {:induction false} CallReturns(run: Run, i: nat, n: nat)
    requires IsRun(run) && FairToOthers(run) && (FairTo(run, TheOwner) || StaysReady(run, n))
    requires i < |run.states(n).submitters|
    ensures exists m: nat ::
              n <= m && i < |run.states(m).submitters| && run.states(m).submitters[i].Idle?
    decreases CallLeft(run.states(n).submitters[i])
  {
    hide Inv, Do;
    if !run.states(n).submitters[i].Idle? {
      var p := ASubmitter(i);
      assert FairTo(run, p);
      if !MovesAfter(run, p, n) {
        forall m: nat | n <= m
          ensures EnabledAfter(run, p, m)
        {
          Released(run, m);
          var k: nat :| m <= k && run.states(k).mutex.None?;
          CallUntil(run, i, n, k);
          assert EnabledAt(run, p, k);
        }
        assert false;
      }
      var k: nat :| n <= k && MovesAt(run, p, k);
      var j := FirstMove(run, p, n, k);
      CallUntil(run, i, n, j);
      assert StepAt(run, j);
      CallMoves(run.states(j), i);
      CallReturns(run, i, j + 1);
    }
  }

  // ---------- The pool is freed ----------

  /** Whose step brings the end nearer: the worker the owner waits for, or the owner. */
  function Helper(s: State): Party {
    if s.owner.Waiting? && s.owner.i < |s.workers| && !s.workers[s.owner.i].pc.Exited? then
      AWorker(s.owner.i)
    else TheOwner
  }

  function DrainLeft(s: State): nat {
    if s.owner.Draining? then |s.queue| else 0
  }

  predicate SameRank(s: State, t: State) {
    OwnerLeft(s) == OwnerLeft(t) && DrainLeft(s) == DrainLeft(t) && AwaitedLeft(s) == AwaitedLeft(t)
  }

  predicate LowerRank(s: State, t: State) {
    || OwnerLeft(s) < OwnerLeft(t)
    || (OwnerLeft(s) == OwnerLeft(t) &&
        (DrainLeft(s) < DrainLeft(t) ||
         (DrainLeft(s) == DrainLeft(t) && AwaitedLeft(s) < AwaitedLeft(t))))
  }

  lemma OnlyCriticalChangesQueue(s: State, step: Step)
    requires Enabled(s, step) && Do(s, step).queue != s.queue
    ensures step.Move? && Critical(s, step.party)
  {
  }

  lemma DrainingKeepsQueue(s: State, step: Step)
    requires LockInv(s) && Enabled(s, step) && s.owner.Draining? && step != Move(TheOwner)
    ensures Do(s, step).queue == s.queue
  {
    hide Do, Enabled;
    assert Critical(s, TheOwner);
    if Do(s, step).queue != s.queue {
      OnlyCriticalChangesQueue(s, step);
    }
  }

  lemma OthersKeepRank(s: State, step: Step)
    requires LockInv(s) && PhaseInv(s) && Enabled(s, step) && step != Move(Helper(s))
    ensures var t := Do(s, step);
            t.owner == s.owner && Helper(t) == Helper(s) && SameRank(t, s)
  {
    hide LockInv;
    if s.owner.Draining? {
      DrainingKeepsQueue(s, step);
    }
  }

  lemma HelperProgresses(s: State)
    requires PhaseInv(s) && Enabled(s, Move(Helper(s)))
    ensures LowerRank(Do(s, Move(Helper(s))), s)
  {
  }

  lemma HelperCanMove(s: State)
    requires LockInv(s) && PhaseInv(s) && s.mutex.None? && !s.owner.Freed?
    ensures Enabled(s, Move(Helper(s)))
  {
  }

  lemma {:induction false} RankUntil(run: Run, n: nat, j: nat)
    requires IsRun(run) && n <= j
    requires forall i | n <= i < j :: !MovesAt(run, Helper(run.states(n)), i)
    ensures var s, t := run.states(n), run.states(j);
            t.owner == s.owner && Helper(t) == Helper(s) && SameRank(t, s)
    decreases j - n
  {
    hide LockInv, PhaseInv, OrderInv, CountInv, CallInv, Enabled, Do, Helper, OwnerLeft, DrainLeft,
         AwaitedLeft;
    if n < j {
      RankUntil(run, n, j - 1);
      InvAt(run, j - 1);
      assert StepAt(run, j - 1) && !MovesAt(run, Helper(run.states(n)), j - 1);
      if run.moves(j - 1).Some? {
        OthersKeepRank(run.states(j - 1), run.moves(j - 1).value);
      }
    }
  }

  /** Every fair run frees the pool, whatever calls begin meanwhile. */
  lemma {:induction false} FairRunFrees(run: Run, n: nat)
    requires IsRun(run) && Fair(run)
    ensures exists m: nat :: n <= m && run.states(m).owner.Freed?
    decreases if OwnerLeft(run.states(n)) < 0 then 0 else OwnerLeft(run.states(n)),
              DrainLeft(run.states(n)), AwaitedLeft(run.states(n))
  {
    hide LockInv, PhaseInv, OrderInv, CountInv, CallInv, Enabled, Do, Helper, OwnerLeft, DrainLeft,
         AwaitedLeft;
    if !run.states(n).owner.Freed? {
      var p := Helper(run.states(n));
      assert FairTo(run, p);
      if !MovesAfter(run, p, n) {
        forall m: nat | n <= m
          ensures EnabledAfter(run, p, m)
        {
          Released(run, m);
          var k: nat :| m <= k && run.states(k).mutex.None?;
          RankUntil(run, n, k);
          InvAt(run, k);
          HelperCanMove(run.states(k));
          assert EnabledAt(run, p, k);
        }
        assert false;
      }
      var k: nat :| n <= k && MovesAt(run, p, k);
      var j := FirstMove(run, p, n, k);
      RankUntil(run, n, j);
      InvAt(run, j);
      InvAt(run, j + 1);
      assert StepAt(run, j);
      HelperProgresses(run.states(j));
      OwnerLeftNat(run.states(j));
      OwnerLeftNat(run.states(j + 1));
      FairRunFrees(run, j + 1);
    }
  }

  // ---------- Every job is executed ----------

  /** What no step of a pool that is up takes back: jobs only join the submitted, popped and
      executed ones, nothing is dropped, and the workers stay. */
  ghost predicate Grows(s: State, t: State) {
    && s.submitted <= t.submitted && s.popped <= t.popped && s.executed <= t.executed
    && |s.workers| <= |t.workers|
  }

  lemma StepGrows(s: State, step: Step)
    requires Enabled(s, step)
    ensures Grows(s, Do(s, step))
  {
  }

  lemma {:induction false} RunGrows(run: Run, n: nat, m: nat)
    requires IsRun(run) && n <= m
    ensures Grows(run.states(n), run.states(m))
    decreases m - n
  {
    hide Inv, Enabled, Do;
    if n < m {
      RunGrows(run, n, m - 1);
      assert StepAt(run, m - 1);
      if run.moves(m - 1).Some? {
        StepGrows(run.states(m - 1), run.moves(m - 1).value);
      }
    }
  }

  /** Steps a running worker takes until its next pop. */
  function PopDistance(pc: WorkerPc): nat {
    match pc
    case Pop => 0
    case Lock => 1
    case Check => 2
    case Run(_) => 3
    case Unlock(_) => 4
    case Exited => 5
  }

  lemma OthersLeaveWorker(s: State, step: Step, i: nat)
    requires Enabled(s, step) && step != Move(AWorker(i)) && i < |s.workers| && s.owner.Ready?
    ensures i < |Do(s, step).workers| && Do(s, step).workers[i] == s.workers[i]
  {
  }

  lemma {:induction false} WorkerUntil(run: Run, i: nat, n: nat, j: nat)
    requires IsRun(run) && StaysReady(run, n) && n <= j && i < |run.states(n).workers|
    requires forall k | n <= k < j :: !MovesAt(run, AWorker(i), k)
    ensures i < |run.states(j).workers| && run.states(j).workers[i] == run.states(n).workers[i]
    decreases j - n
  {
    hide Inv, Enabled, Do;
    if n < j {
      WorkerUntil(run, i, n, j - 1);
      assert StepAt(run, j - 1) && !MovesAt(run, AWorker(i), j - 1);
      if run.moves(j - 1).Some? {
        OthersLeaveWorker(run.states(j - 1), run.moves(j - 1).value, i);
      }
    }
  }

  lemma ReadyWorkerRuns(s: State, i: nat)
    requires PhaseInv(s) && s.owner.Ready? && i < |s.workers|
    ensures s.workers[i].running && !s.workers[i].pc.Exited?
    ensures s.mutex.None? ==> Enabled(s, Move(AWorker(i)))
  {
  }

  /** While the pool is up every worker moves again: some j is its next move, and until then it
      stays where it is. */
  lemma WorkerMoves(run: Run, i: nat, n: nat) returns (j: nat)
    requires IsRun(run) && FairToOthers(run) && StaysReady(run, n) && i < |run.states(n).workers|
    ensures n <= j && MovesAt(run, AWorker(i), j) && i < |run.states(j).workers|
    ensures run.states(j).workers[i] == run.states(n).workers[i]
  {
    hide LockInv, PhaseInv, OrderInv, CountInv, CallInv, Enabled, Do;
    var p := AWorker(i);
    assert FairTo(run, p);
    if !MovesAfter(run, p, n) {
      forall m: nat | n <= m
        ensures EnabledAfter(run, p, m)
      {
        Released(run, m);
        var k: nat :| m <= k && run.states(k).mutex.None?;
        WorkerUntil(run, i, n, k);
        InvAt(run, k);
        ReadyWorkerRuns(run.states(k), i);
        assert EnabledAt(run, p, k);
      }
      assert false;
    }
    var k: nat :| n <= k && MovesAt(run, p, k);
    j := FirstMove(run, p, n, k);
    WorkerUntil(run, i, n, j);
  }

  /** A worker that moves comes nearer to its next pop, or pops the front job. */
  lemma NearerToPop(s: State, i: nat)
    requires PhaseInv(s) && s.owner.Ready? && i < |s.workers| && Enabled(s, Move(AWorker(i)))
    requires s.queue != []
    ensures var t := Do(s, Move(AWorker(i)));
            || t.popped == s.popped + [s.queue[0]]
            || (i < |t.workers| && PopDistance(t.workers[i].pc) < PopDistance(s.workers[i].pc))
  {
  }

  lemma QueueWhileReady(s: State)
    requires OrderInv(s) && PhaseInv(s) && s.owner.Ready?
    ensures s.submitted == s.popped + s.queue
  {
  }

  /** Every job submitted is popped in the end, if there is a worker at all. */
  lemma {:induction false} JobPopped(run: Run, n: nat, k: nat)
    requires IsRun(run) && FairToOthers(run) && StaysReady(run, n)
    requires |run.states(n).workers| > 0 && k <= |run.states(n).submitted|
    ensures exists m: nat :: n <= m && k <= |run.states(m).popped|
    decreases if k <= |run.states(n).popped| then 0 else k - |run.states(n).popped|,
              PopDistance(run.states(n).workers[0].pc)
  {
    hide LockInv, PhaseInv, OrderInv, CountInv, CallInv, Enabled, Do, PopDistance;
    if |run.states(n).popped| < k {
      var j := WorkerMoves(run, 0, n);
      RunGrows(run, n, j);
      if k <= |run.states(j).popped| {
      } else {
        InvAt(run, j);
        QueueWhileReady(run.states(j));
        assert StepAt(run, j);
        NearerToPop(run.states(j), 0);
        RunGrows(run, j, j + 1);
        JobPopped(run, j + 1, k);
      }
    }
  }

  lemma {:induction false} HolderOf(workers: seq<Worker>, job: Job) returns (i: nat)
    requires job in InFlight(workers)
    ensures i < |workers| && job in Held(workers[i])
  {
    var n := |workers| - 1;
    if job in Held(workers[n]) {
      i := n;
    } else {
      i := HolderOf(workers[..n], job);
    }
  }

  lemma HeldStage(s: State, i: nat, job: Job)
    requires i < |s.workers| && job in Held(s.workers[i])
    ensures AtStage(s, i, job, 1) || AtStage(s, i, job, 2)
  {
  }

  /** A job in a worker's hands is executed. */
  lemma {:induction false} HeldJobRuns(run: Run, i: nat, n: nat, job: Job, stage: nat) returns (m: nat)
    requires IsRun(run) && FairToOthers(run) && StaysReady(run, n)
    requires 1 <= stage <= 2 && AtStage(run.states(n), i, job, stage)
    ensures n < m && multiset(run.states(m).executed)[job] > multiset(run.states(n).executed)[job]
    decreases 3 - stage
  {
    hide LockInv, PhaseInv, OrderInv, CountInv, CallInv, Enabled, Do;
    var j := WorkerMoves(run, i, n);
    RunGrows(run, n, j);
    assert StepAt(run, j) && AtStage(run.states(j), i, job, stage);
    StageNext(run.states(j), i, job, stage);
    MoreExecuted(run.states(n).executed, run.states(j).executed, job);
    if stage == 2 {
      m := j + 1;
    } else {
      RunGrows(run, n, j + 1);
      m := HeldJobRuns(run, i, j + 1, job, stage + 1);
      MoreExecuted(run.states(n).executed, run.states(j + 1).executed, job);
    }
  }

  lemma MoreExecuted(a: seq<Job>, b: seq<Job>, job: Job)
    requires a <= b
    ensures multiset(a)[job] <= multiset(b)[job]
    ensures multiset(b + [job])[job] == multiset(b)[job] + 1
  {
    assert b == a + b[|a|..];
  }

  /** Of what has been popped, everything is executed in the end. */
  lemma {:induction false} PoppedRuns(run: Run, n: nat, job: Job, c: nat) returns (m: nat)
    requires IsRun(run) && FairToOthers(run) && StaysReady(run, n)
    requires c <= multiset(run.states(n).popped)[job]
    ensures n <= m && c <= multiset(run.states(m).executed)[job]
    decreases if c <= multiset(run.states(n).executed)[job] then 0
              else c - multiset(run.states(n).executed)[job]
  {
    hide LockInv, PhaseInv, OrderInv, CallInv, Enabled, Do, InFlight, AtStage;
    if c <= multiset(run.states(n).executed)[job] {
      m := n;
    } else {
      InvAt(run, n);
      var i := HolderOf(run.states(n).workers, job);
      HeldStage(run.states(n), i, job);
      var k := HeldJobRuns(run, i, n, job, if AtStage(run.states(n), i, job, 1) then 1 else 2);
      RunGrows(run, n, k);
      MoreExecuted(run.states(n).popped, run.states(k).popped, job);
      m := PoppedRuns(run, k, job, c);
    }
  }

  /** While a pool with workers is up, every job is executed as often as it has been submitted. */
  lemma JobsExecuted(run: Run, n: nat, job: Job)
    requires IsRun(run) && FairToOthers(run) && StaysReady(run, n) && run.states(n).maxThreads > 0
    ensures exists m: nat ::
              n <= m && multiset(run.states(n).submitted)[job] <= multiset(run.states(m).executed)[job]
  {
    hide LockInv, OrderInv, CountInv, CallInv, Enabled, Do;
    InvAt(run, n);
    JobPopped(run, n, |run.states(n).submitted|);
    var k: nat :| n <= k && |run.states(n).submitted| <= |run.states(k).popped|;
    InvAt(run, k);
    RunGrows(run, n, k);
    PoppedPrefix(run.states(k));
    assert run.states(n).submitted <= run.states(k).popped;
    MoreExecuted(run.states(n).submitted, run.states(k).popped, job);
    var m := PoppedRuns(run, k, job, multiset(run.states(n).submitted)[job]);
  }

  lemma PoppedPrefix(s: State)
    requires OrderInv(s)
    ensures s.popped <= s.submitted
  {
    assert s.submitted == s.popped + (s.dropped + s.queue);
  }

  /** A pool of one worker without jobs that is never destroyed. */
  function Spinning(n: nat): State {
    var pc, mutex :=
      if n % 4 == 0 then Check else if n % 4 == 1 then Lock else if n % 4 == 2 then Pop else Unlock(None),
      if n % 4 < 2 then None else Some(AWorker(0));
    State(1, [Worker(true, pc)], [], Ready, mutex, [], [], [], [], [], [])
  }

  /** Such runs exist: a lone worker that goes round and round. */
  lemma SpinningIsFair()
    ensures var run := Endless(Spinning, n => Some(Move(AWorker(0))));
            IsRun(run) && FairToOthers(run) && StaysReady(run, 0) && run.states(0).maxThreads == 1
  {
    var run := Endless(Spinning, n => Some(Move(AWorker(0))));
    forall n: nat
      ensures StepAt(run, n)
    {
      assert [Worker(true, Check)][0 := Worker(true, Lock)] == [Worker(true, Lock)];
      assert (n + 1) % 4 == if n % 4 == 3 then 0 else n % 4 + 1;
    }
    assert [Worker(true, Check)][..0] == [];
    forall p: Party, n: nat | p != TheOwner && forall m: nat :: n <= m ==> EnabledAfter(run, p, m)
      ensures MovesAfter(run, p, n)
    {
      assert EnabledAfter(run, p, n);
      assert MovesAt(run, AWorker(0), n);
    }
  }
}
