/**
 What the simulated worker has copied for a job by the time it reports the exec phase, over
 every run of the job protocol.
 */
module JobCopies {
  import opened JobProtocol
  import opened JobProtocolProofs

  /** The columns copied for job i, in order. */
  function CopiesOf(log: seq<Copy>, i: int): seq<nat> {
    if log == [] then []
    else
      var n := |log| - 1;
      CopiesOf(log[..n], i) + if log[n].job == i then [log[n].column] else []
  }

  /** Columns 0 to n - 1. */
  function FirstColumns(n: nat): (r: seq<nat>)
    ensures |r| == n && forall c | 0 <= c < n :: r[c] == c
  {
    seq(n, c requires 0 <= c < n => c)
  }

  /** The first n outputs get the words they wait for. */
  predicate AllFed(lanes: seq<Lane>, n: nat) {
    n <= |lanes| && forall c | 0 <= c < n :: lanes[c].Fed()
  }

  /** All four columns were copied, once each and in order, and every output got its words. */
  ghost predicate FullPass(s: State, i: int)
    requires IsJob(s, i)
  {
    CopiesOf(s.copies, i) == FirstColumns(COLUMNS) && AllFed(s.jobs[i].lanes, COLUMNS)
  }

  predicate FromWorker(e: Event) { e.ExecAccepted? && e.source != NULL }

  /** An exec completion that the worker raised was accepted for the job. */
  ghost predicate SimCompleted(j: Job) {
    exists e | e in j.history :: FromWorker(e)
  }

  // ---------- the invariant ----------

  ghost predicate WorkerPass(s: State) {
    var w := s.worker;
    w.Holds() ==>
      && IsJob(s, w.job)
      && var done, lanes := CopiesOf(s.copies, w.job), s.jobs[w.job].lanes;
      match w
      case ConfigWait(_) => done == []
      case ConfigDone(_) => done == []
      case ExecWait(_, column, fed) => column < COLUMNS && done == FirstColumns(column) && fed == AllFed(lanes, column)
      case Copying(_, column, fed) => column < COLUMNS && done == FirstColumns(column) && fed == AllFed(lanes, column)
      case ExecDone(job) => FullPass(s, job)
      case _ => true
  }

  /** Work is queued, or about to look for its job, only while that job is on the device and untouched. */
  ghost predicate QueuedPass(s: State) {
    && (s.queued ==> s.worker.Idle?)
    && (s.queued || s.worker.Entered? ==> exists i :: OnDevice(s, i))
    && ((s.queued || s.worker.Entered?) && s.active != NULL ==> CopiesOf(s.copies, s.active) == [])
  }

  ghost predicate JobPass(s: State, i: nat)
    requires i < |s.jobs|
  {
    var j := s.jobs[i];
    && |j.lanes| == COLUMNS
    && (j.stage.Queued? ==> CopiesOf(s.copies, i) == [])
    && (SimCompleted(j) ==> FullPass(s, i))
    && (s.sim ==> forall e | e in j.history && e.ExecAccepted? :: e.source != NULL)
  }

  ghost predicate JobPasses(s: State) {
    forall i | 0 <= i < |s.jobs| :: JobPass(s, i)
  }

  ghost predicate LogOk(s: State) {
    forall k | 0 <= k < |s.copies| :: s.copies[k].job < |s.jobs|
  }

  /** The abort line stays up from when it is raised until the worker is gone. */
  predicate AbortHeld(s: State) {
    s.sim && (s.handler.Raised? || s.removal.RemovalRaised?) ==> s.simAbort
  }

  ghost predicate Passes(s: State) {
    WorkerPass(s) && QueuedPass(s) && JobPasses(s) && LogOk(s) && AbortHeld(s)
  }

  lemma {:induction false} InitPasses(sim: bool)
    ensures Passes(Init(sim))
  {
  }

  lemma {:induction false} NoCopiesBeyond(log: seq<Copy>, n: nat)
    requires forall k | 0 <= k < |log| :: log[k].job < n
    ensures CopiesOf(log, n) == []
  {
    if log != [] {
      NoCopiesBeyond(log[..|log| - 1], n);
    }
  }

  // ---------- steps that copy nothing ----------

  /** The jobs keep what the invariant needs of them. */
  ghost predicate Steady(s: State, s': State) {
    && s'.sim == s.sim && s'.copies == s.copies && |s'.jobs| == |s.jobs|
    && forall i | 0 <= i < |s.jobs| :: SteadyJob(s.sim, s.jobs[i], s'.jobs[i])
  }

  ghost predicate SteadyJob(sim: bool, j: Job, j': Job) {
    && j'.lanes == j.lanes && (j'.stage.Queued? ==> j.stage.Queued?)
    && (forall e | e in j'.history && e.ExecAccepted? :: e in j.history || (!sim && e.source == NULL))
  }

  lemma {:induction false} SteadyPass(s: State, s': State, i: nat)
    requires Steady(s, s') && i < |s.jobs| && JobPass(s, i)
    ensures JobPass(s', i)
  {
    assert SteadyJob(s.sim, s.jobs[i], s'.jobs[i]);
  }

  lemma {:induction false} SteadyKeeps(s: State, s': State)
    requires Steady(s, s') && JobPasses(s) && LogOk(s)
    ensures JobPasses(s') && LogOk(s')
    ensures s'.worker == s.worker && WorkerPass(s) ==> WorkerPass(s')
  {
    forall i | 0 <= i < |s'.jobs|
      ensures JobPass(s', i)
    {
      SteadyPass(s, s', i);
    }
    if s.worker.Holds() && IsJob(s, s.worker.job) {
      assert SteadyJob(s.sim, s.jobs[s.worker.job], s'.jobs[s.worker.job]);
    }
  }

  // ---------- steps of the scheduler ----------

  lemma {:induction false} NotOnDevice(s: State, i: nat, k: int)
    requires Core(s) && Enabled(s, RunJob(i))
    ensures !OnDevice(s, k)
  {
    assert IsJob(s, k) ==> JobOk(s, k);
  }

  /** Nothing is on the device when a job can be started, so the worker is idle and nothing is queued. */
  lemma {:induction false} NothingRuns(s: State, i: nat)
    requires Core(s) && Passes(s) && Enabled(s, RunJob(i))
    ensures s.worker.Idle? && !s.queued
  {
    forall k
      ensures !OnDevice(s, k)
    {
      NotOnDevice(s, i, k);
    }
  }

  /** A job record is replaced by one that is steady. */
  lemma {:induction false} PutSteady(s: State, s': State, i: nat)
    requires i < |s.jobs| && s'.sim == s.sim && s'.copies == s.copies && |s'.jobs| == |s.jobs|
    requires SteadyJob(s.sim, s.jobs[i], s'.jobs[i]) && forall k | 0 <= k < |s.jobs| && k != i :: s'.jobs[k] == s.jobs[k]
    ensures Steady(s, s')
  {
  }

  lemma {:induction false} RunPasses(s: State, i: nat)
    requires Core(s) && Passes(s) && Enabled(s, RunJob(i))
    ensures Passes(Apply(s, RunJob(i)))
  {
    var s' := Apply(s, RunJob(i));
    NothingRuns(s, i);
    PutSteady(s, s', i);
    SteadyKeeps(s, s');
    assert JobPass(s, i) && JobOk(s, i);
    assert OnDevice(s', i);
  }

  lemma {:induction false} SubmitPasses(s: State, bindings: seq<nat>, lanes: seq<Lane>)
    requires Core(s) && Passes(s) && Enabled(s, Submit(bindings, lanes))
    ensures Passes(Apply(s, Submit(bindings, lanes)))
  {
    var s' := Apply(s, Submit(bindings, lanes));
    NoCopiesBeyond(s.copies, |s.jobs|);
    forall i | 0 <= i < |s'.jobs|
      ensures JobPass(s', i)
    {
      assert i < |s.jobs| ==> JobPass(s, i);
    }
    if s.queued || s.worker.Entered? {
      var k :| OnDevice(s, k);
      assert OnDevice(s', k);
    }
  }

  lemma {:induction false} AttachPasses(s: State)
    requires Core(s) && Passes(s) && Enabled(s, Attach)
    ensures Passes(Apply(s, Attach))
  {
    var s' := Apply(s, Attach);
    PutSteady(s, s', s.running);
    SteadyKeeps(s, s');
    if s.queued || s.worker.Entered? {
      var k :| OnDevice(s, k);
      assert OnDevice(s', k);
    }
  }

  lemma {:induction false} DetachPasses(s: State)
    requires Core(s) && Passes(s) && Enabled(s, Detach)
    ensures Passes(Apply(s, Detach))
  {
    var s' := Apply(s, Detach);
    assert Steady(s, s');
    SteadyKeeps(s, s');
    if s.queued || s.worker.Entered? {
      var k :| OnDevice(s, k);
      assert OnDevice(s', k);
    }
  }

  lemma {:induction false} RestartPasses(s: State)
    requires Core(s) && Passes(s) && Enabled(s, Restart)
    ensures Passes(Apply(s, Restart))
  {
    var s' := Apply(s, Restart);
    assert Steady(s, s');
    SteadyKeeps(s, s');
  }

  lemma {:induction false} FreePasses(s: State, i: nat)
    requires Core(s) && Passes(s) && Enabled(s, FreeJob(i))
    ensures Passes(Apply(s, FreeJob(i)))
  {
    var s' := Apply(s, FreeJob(i));
    PutSteady(s, s', i);
    SteadyKeeps(s, s');
    if s.queued || s.worker.Entered? {
      var k :| OnDevice(s, k);
      assert OnDevice(s', k);
    }
  }

  lemma {:induction false} RetirePasses(s: State, i: nat)
    requires Core(s) && Passes(s) && Enabled(s, Retire(i))
    ensures Passes(Apply(s, Retire(i)))
  {
    var s' := Apply(s, Retire(i));
    PutSteady(s, s', i);
    SteadyKeeps(s, s');
  }

  lemma {:induction false} SchedPasses(s: State, a: Action)
    requires Core(s) && Passes(s) && Enabled(s, a) && SchedStep(a)
    ensures Passes(Apply(s, a))
  {
    match a
    case Submit(bindings, lanes) => SubmitPasses(s, bindings, lanes);
    case RunJob(i) => RunPasses(s, i);
    case Attach => AttachPasses(s);
    case Detach => DetachPasses(s);
    case Restart => RestartPasses(s);
    case FreeJob(i) => FreePasses(s, i);
    case Retire(i) => RetirePasses(s, i);
  }

  // ---------- steps that leave the jobs alone ----------

  lemma {:induction false} SameJobsSteady(s: State, s': State)
    requires s'.jobs == s.jobs && s'.sim == s.sim && s'.copies == s.copies && JobPasses(s) && LogOk(s)
    ensures JobPasses(s') && LogOk(s')
    ensures s'.worker == s.worker && WorkerPass(s) ==> WorkerPass(s')
    ensures forall i | OnDevice(s, i) :: OnDevice(s', i)
  {
    SteadyKeeps(s, s');
  }

  lemma {:induction false} HandlerPasses(s: State, a: Action)
    requires Core(s) && Passes(s) && Enabled(s, a) && HandlerStep(a)
    ensures Passes(Apply(s, a))
  {
    HandlerQuiet(s, a);
    SameJobsSteady(s, Apply(s, a));
  }

  lemma {:induction false} RemovalPasses(s: State, a: Action)
    requires Core(s) && Passes(s) && Enabled(s, a) && RemovalStep(a)
    ensures Passes(Apply(s, a))
  {
    RemovalQuiet(s, a);
    SameJobsSteady(s, Apply(s, a));
  }

  // ---------- the worker ----------

  lemma {:induction false} WorkMovePasses(s: State, a: Action)
    requires Core(s) && Passes(s) && Enabled(s, a) && (a.WorkStart? || a.WorkLock? || a.WorkAborted? || a.WorkElapsed?)
    ensures Passes(Apply(s, a))
  {
    WorkMoveQuiet(s, a);
    SameJobsSteady(s, Apply(s, a));
  }

  /** A copy extends the columns of its own job and of no other. */
  lemma {:induction false} CopyAppends(log: seq<Copy>, c: Copy, i: int)
    ensures CopiesOf(log + [c], i) == CopiesOf(log, i) + if c.job == i then [c.column] else []
  {
    assert (log + [c])[..|log|] == log;
  }

  lemma {:induction false} NextColumn(n: nat)
    ensures FirstColumns(n) + [n] == FirstColumns(n + 1)
  {
  }

  /** A job on the device has had no exec completion accepted. */
  lemma {:induction false} NotCompletedYet(j: Job)
    requires HistoryOk(j) && InFlight(j) && !j.signalled
    ensures forall e | e in j.history :: !e.ExecAccepted?
  {
  }

  lemma {:induction false} CopyKeepsJob(s: State, s': State, c: Copy, i: nat)
    requires s'.jobs == s.jobs && s'.sim == s.sim && s'.copies == s.copies + [c]
    requires i < |s.jobs| && JobPass(s, i)
    requires c.job == i ==> HistoryOk(s.jobs[i]) && InFlight(s.jobs[i]) && !s.jobs[i].signalled
    ensures JobPass(s', i)
  {
    CopyAppends(s.copies, c, i);
    if c.job == i {
      NotCompletedYet(s.jobs[i]);
    }
  }

  lemma {:induction false} CopyKeepsWorker(s: State, s': State)
    requires WorkerPass(s) && s.worker.Copying? && IsJob(s, s.worker.job) && |s.jobs[s.worker.job].lanes| == COLUMNS
    requires s'.jobs == s.jobs && s'.copies == s.copies + [Copy(s.worker.job, s.worker.column)]
    requires s.worker.column < COLUMNS && s'.worker == AfterCopy(s.worker, s.jobs[s.worker.job].lanes[s.worker.column].Fed())
    ensures WorkerPass(s')
  {
    CopyAppends(s.copies, Copy(s.worker.job, s.worker.column), s.worker.job);
    NextColumn(s.worker.column);
  }

  lemma {:induction false} WorkCopyPasses(s: State)
    requires Inv(s) && Passes(s) && Enabled(s, WorkCopy)
    ensures Passes(Apply(s, WorkCopy))
  {
    var w, s' := s.worker, Apply(s, WorkCopy);
    WorkCopyIs(s);
    assert JobPass(s, w.job);
    CopyKeepsWorker(s, s');
    forall i | 0 <= i < |s'.jobs|
      ensures JobPass(s', i)
    {
      assert JobPass(s, i);
      CopyKeepsJob(s, s', Copy(w.job, w.column), i);
    }
  }

  lemma {:induction false} ConfigDonePasses(s: State)
    requires Inv(s) && Passes(s) && Enabled(s, WorkConfigDone)
    ensures Passes(Apply(s, WorkConfigDone))
  {
    var s' := Apply(s, WorkConfigDone);
    if s.active != NULL {
      PutSteady(s, s', s.active);
    }
    assert Steady(s, s');
    SteadyKeeps(s, s');
    assert SteadyJob(s.sim, s.jobs[s.worker.job], s'.jobs[s.worker.job]);
  }

  lemma {:induction false} CompletedPass(s: State, s': State, i: nat)
    requires s'.sim == s.sim && s'.copies == s.copies && |s'.jobs| == |s.jobs| && i < |s.jobs| && JobPass(s, i) && FullPass(s, i)
    requires s'.jobs[i] == AfterPhase(s.jobs[i], Exec, i)
    ensures JobPass(s', i)
  {
  }

  lemma {:induction false} OtherPass(s: State, s': State, i: nat)
    requires s'.sim == s.sim && s'.copies == s.copies && |s'.jobs| == |s.jobs| && i < |s.jobs| && JobPass(s, i)
    requires s'.jobs[i] == s.jobs[i]
    ensures JobPass(s', i)
  {
  }

  /** The worker reports the exec phase only after a full pass. */
  lemma {:induction false} ExecDonePasses(s: State)
    requires Inv(s) && Passes(s) && Enabled(s, WorkExecDone)
    ensures Passes(Apply(s, WorkExecDone))
  {
    var s', i := Apply(s, WorkExecDone), s.worker.job;
    WorkerReportsActive(s);
    PhaseDoneJobs(s, Exec, i);
    forall k | 0 <= k < |s'.jobs|
      ensures JobPass(s', k)
    {
      assert JobPass(s, k);
      if s'.jobs[k] == s.jobs[k] {
        OtherPass(s, s', k);
      } else {
        CompletedPass(s, s', k);
      }
    }
  }

  lemma {:induction false} InterruptPasses(s: State, phase: Phase)
    requires Inv(s) && Passes(s) && Enabled(s, Interrupt(phase))
    ensures Passes(Apply(s, Interrupt(phase)))
  {
    PhaseDoneJobs(s, phase, NULL);
    InterruptSteady(s, Apply(s, Interrupt(phase)), phase);
    SteadyKeeps(s, Apply(s, Interrupt(phase)));
  }

  lemma {:induction false} InterruptSteady(s: State, s': State, phase: Phase)
    requires !s.sim && !s'.sim && s'.copies == s.copies
    requires s'.jobs == s.jobs || (IsJob(s, s.active) && s'.jobs == s.jobs[s.active := AfterPhase(s.jobs[s.active], phase, NULL)])
    requires s'.jobs != s.jobs ==> !s.jobs[s.active].stage.Queued?
    ensures Steady(s, s')
  {
  }

  // ---------- every run ----------

  lemma {:induction false} StepKeepsPasses(s: State, a: Action)
    requires Inv(s) && Passes(s) && Enabled(s, a)
    ensures Passes(Apply(s, a))
  {
    if SchedStep(a) {
      SchedPasses(s, a);
    } else if HandlerStep(a) {
      HandlerPasses(s, a);
    } else if RemovalStep(a) {
      RemovalPasses(s, a);
    } else if a.WorkCopy? {
      WorkCopyPasses(s);
    } else if WorkStep(a) {
      WorkMovePasses(s, a);
    } else if a.Interrupt? {
      InterruptPasses(s, a.phase);
    } else if a.WorkConfigDone? {
      ConfigDonePasses(s);
    } else {
      ExecDonePasses(s);
    }
  }

  lemma {:induction false} RunKeepsPasses(s: State, run: seq<Action>)
    requires Inv(s) && Passes(s) && AllEnabled(s, run)
    ensures Passes(Run(s, run))
    decreases run
  {
    if run != [] {
      StepKeeps(s, run[0]);
      StepKeepsPasses(s, run[0]);
      RunKeepsPasses(Apply(s, run[0]), run[1..]);
    }
  }

  lemma {:induction false} ReachablePasses(s: State)
    requires Reachable(s)
    ensures Passes(s)
  {
    var sim: bool, run: seq<Action> :| AllEnabled(Init(sim), run) && Run(Init(sim), run) == s;
    InitHolds(sim);
    InitPasses(sim);
    RunKeepsPasses(Init(sim), run);
  }

  /**
   Over every run: an exec completion accepted from the worker was preceded by the copies of
   columns 0 to 3 of that job, once each and in order, and every output got its words.
   */
  lemma {:induction false} ExecDoneIsEarned(s: State, i: nat)
    requires Reachable(s) && i < |s.jobs| && SimCompleted(s.jobs[i])
    ensures CopiesOf(s.copies, i) == [0, 1, 2, 3]
    ensures |s.jobs[i].lanes| == COLUMNS && forall c | 0 <= c < COLUMNS :: s.jobs[i].lanes[c].output.count <= s.jobs[i].lanes[c].input.count
  {
    ReachablePasses(s);
    assert JobPass(s, i);
    assert FirstColumns(COLUMNS) == [0, 1, 2, 3];
  }

  /** What a simulated success is worth. */
  lemma {:induction false} SimSuccessIsEarned(s: State, i: nat)
    requires Reachable(s) && s.sim && i < |s.jobs| && Ended(Success) in s.jobs[i].history
    ensures CopiesOf(s.copies, i) == [0, 1, 2, 3]
    ensures |s.jobs[i].lanes| == COLUMNS && forall c | 0 <= c < COLUMNS :: s.jobs[i].lanes[c].output.count <= s.jobs[i].lanes[c].input.count
  {
    ReachablePasses(s);
    ReachableIsInv(s);
    var h := s.jobs[i].history;
    HistoryFacts(s.jobs[i]);
    var p :| 0 <= p < |h| && h[p] == Ended(Success);
    assert h[2].ExecAccepted? && h[2] in h;
    assert JobPass(s, i);
    ExecDoneIsEarned(s, i);
  }

  /** A simulated job with an output that waits for more than its input sends never succeeds. */
  lemma {:induction false} UnfedNeverSucceeds(s: State, i: nat, c: nat)
    requires Reachable(s) && s.sim && i < |s.jobs| && c < |s.jobs[i].lanes|
    requires s.jobs[i].lanes[c].input.count < s.jobs[i].lanes[c].output.count
    ensures Ended(Success) !in s.jobs[i].history
  {
    if Ended(Success) in s.jobs[i].history {
      SimSuccessIsEarned(s, i);
    }
  }

  /** While an abort waits for the worker, a worker that is waiting can only give up, and reports nothing. */
  lemma {:induction false} AbortEndsPass(s: State, a: Action)
    requires Reachable(s) && s.sim && (s.handler.Raised? || s.removal.RemovalRaised?)
    requires (s.worker.ConfigWait? || s.worker.ExecWait?) && Enabled(s, a)
    ensures s.simAbort && Enabled(s, WorkAborted)
    ensures Apply(s, a).worker == s.worker || (a.WorkAborted? && Apply(s, a) == s.(worker := Idle))
  {
    ReachablePasses(s);
  }

  // ---------- a simulated run that succeeds ----------

  lemma {:induction false} OnTheDevice(bindings: seq<nat>, lanes: seq<Lane>) returns (s: State)
    requires |bindings| == BINDINGS && |lanes| == COLUMNS
    ensures Reachable(s) && s.sim && !s.simAbort && s.active == 0 && s.queued && s.worker.Idle? && s.copies == []
    ensures s.jobs == [Job(Attached, Config, false, bindings, lanes, [Started])]
  {
    InitIsReachable(true);
    s := Init(true);
    ReachableStep(s, Submit(bindings, lanes));
    s := Apply(s, Submit(bindings, lanes));
    ReachableStep(s, RunJob(0));
    s := Apply(s, RunJob(0));
    assert s.jobs[0].history == [Started];
    ReachableStep(s, Attach);
    s := Apply(s, Attach);
    assert s.jobs[0] == Job(Attached, Config, false, bindings, lanes, [Started]);
  }

  lemma {:induction false} Configured(bindings: seq<nat>, lanes: seq<Lane>) returns (s: State)
    requires |bindings| == BINDINGS && |lanes| == COLUMNS
    ensures Reachable(s) && s.sim && !s.simAbort && s.active == 0 && s.worker == ExecWait(0, 0, true) && s.copies == []
    ensures s.jobs == [Job(Attached, Exec, false, bindings, lanes, [Started, ConfigAccepted(0)])]
  {
    s := OnTheDevice(bindings, lanes);
    ReachableStep(s, WorkStart);
    s := Apply(s, WorkStart);
    ReachableStep(s, WorkLock);
    s := Apply(s, WorkLock);
    ReachableStep(s, WorkElapsed);
    s := Apply(s, WorkElapsed);
    ReachableStep(s, WorkConfigDone);
    s := Apply(s, WorkConfigDone);
    assert [Started] + [ConfigAccepted(0)] == [Started, ConfigAccepted(0)];
  }

  /** One column: the worker waits, copies, and goes on or stops. */
  lemma {:induction false} OneColumn(s: State) returns (r: State)
    requires Reachable(s) && !s.simAbort && s.worker.ExecWait? && IsJob(s, s.worker.job)
    requires s.worker.column < COLUMNS && |s.jobs[s.worker.job].lanes| == COLUMNS && !s.jobs[s.worker.job].stage.Freed?
    ensures Reachable(r)
    ensures var w := s.worker;
      var fed := w.fed && s.jobs[w.job].lanes[w.column].Fed();
      r == s.(copies := s.copies + [Copy(w.job, w.column)],
        worker := if w.column + 1 < COLUMNS then ExecWait(w.job, w.column + 1, fed) else if fed then ExecDone(w.job) else Idle)
  {
    ReachableStep(s, WorkElapsed);
    r := Apply(s, WorkElapsed);
    ReachableStep(r, WorkCopy);
    WorkCopyIs(r);
    r := Apply(r, WorkCopy);
  }

  /** A pass that no abort cuts short reports the exec phase exactly when every output is fed. */
  lemma {:induction false} WholePass(s: State) returns (r: State)
    requires Reachable(s) && !s.simAbort && s.worker.ExecWait? && s.worker.column == 0 && s.worker.fed
    requires IsJob(s, s.worker.job) && |s.jobs[s.worker.job].lanes| == COLUMNS && !s.jobs[s.worker.job].stage.Freed?
    ensures Reachable(r) && r.copies == s.copies + [Copy(s.worker.job, 0), Copy(s.worker.job, 1), Copy(s.worker.job, 2), Copy(s.worker.job, 3)]
    ensures r == s.(copies := r.copies, worker := r.worker)
    ensures r.worker == if AllFed(s.jobs[s.worker.job].lanes, COLUMNS) then ExecDone(s.worker.job) else Idle
  {
    r := OneColumn(s);
    r := OneColumn(r);
    r := OneColumn(r);
    r := OneColumn(r);
  }

  /** A simulated job whose outputs are all fed succeeds on some run. */
  lemma {:induction false} SimSuccessIsReachable(bindings: seq<nat>, lanes: seq<Lane>) returns (s: State)
    requires |bindings| == BINDINGS && |lanes| == COLUMNS && forall c | 0 <= c < COLUMNS :: lanes[c].Fed()
    ensures Reachable(s) && s.sim && |s.jobs| == 1 && Succeeded(s.jobs[0].history)
  {
    s := Configured(bindings, lanes);
    s := WholePass(s);
    ReachableStep(s, WorkExecDone);
    s := Apply(s, WorkExecDone);
    var h := s.jobs[0].history;
    assert h == [Started, ConfigAccepted(0), ExecAccepted(0), Signalled, Ended(Success)];
    assert h[..4][..2] == [Started, ConfigAccepted(0)];
  }
}
