/**
 The invariant of the job protocol, and what it means for every run.
 */
module JobProtocolProofs {
  import opened JobProtocol

  // ---------- the shape of a job's history ----------

  /** On the device, not completed. */
  ghost predicate Underway(h: seq<Event>, phase: Phase) {
    match phase
    case Config => h == [Started]
    case Exec => |h| == 2 && h[0] == Started && h[1].ConfigAccepted?
  }

  ghost predicate Completed(h: seq<Event>) {
    |h| == 4 && Underway(h[..2], Exec) && h[2].ExecAccepted? && h[3] == Signalled
  }

  /** The device completed it after drm_sched_stop() had dropped its fence: the work is lost. */
  ghost predicate CompletedTooLate(h: seq<Event>) {
    |h| == 5 && Completed(h[..4]) && h[4] == Ended(Canceled)
  }

  ghost predicate Succeeded(h: seq<Event>) {
    |h| == 5 && Completed(h[..4]) && h[4] == Ended(Success)
  }

  ghost predicate WasCanceled(h: seq<Event>, phase: Phase) {
    |h| >= 2 && Underway(h[..|h| - 1], phase) && h[|h| - 1] == Ended(Canceled)
  }

  /** Canceled by a timeout, then found by removal, which signals the dropped fence. */
  ghost predicate WasCanceledThenSignalled(h: seq<Event>, phase: Phase) {
    |h| >= 3 && WasCanceled(h[..|h| - 1], phase) && h[|h| - 1] == Signalled
  }

  ghost predicate WasRemoved(h: seq<Event>, phase: Phase) {
    |h| >= 3 && Underway(h[..|h| - 2], phase) && h[|h| - 2] == Signalled && h[|h| - 1] == Ended(NoDevice)
  }

  ghost predicate Over(h: seq<Event>, phase: Phase) {
    Succeeded(h) || CompletedTooLate(h) || WasCanceled(h, phase) || WasCanceledThenSignalled(h, phase) || WasRemoved(h, phase)
  }

  ghost predicate HistoryOk(j: Job) {
    var h := j.history;
    match j.stage
    case Queued => h == [] && !j.signalled
    case Running => if j.signalled then Completed(h) else Underway(h, j.phase)
    case Attached => !j.signalled && Underway(h, j.phase)
    case Dropped => if j.signalled then Completed(h) else Underway(h, j.phase)
    case Finished => if j.signalled then Succeeded(h) || CompletedTooLate(h) else WasCanceled(h, j.phase)
    case Freed => |h| > 0 && Over(h[..|h| - 1], j.phase) && h[|h| - 1] == Released
  }

  // ---------- references ----------

  function Holds(j: Job): multiset<nat> {
    if j.stage.Freed? then multiset{} else multiset(j.bindings)
  }

  function Held(jobs: seq<Job>): multiset<nat> {
    if jobs == [] then multiset{} else Holds(jobs[0]) + Held(jobs[1..])
  }

  lemma {:induction false} HeldAppend(a: seq<Job>, b: seq<Job>)
    ensures Held(a + b) == Held(a) + Held(b)
  {
    if a == [] {
      assert a + b == b;
    } else {
      assert (a + b)[1..] == a[1..] + b;
      HeldAppend(a[1..], b);
    }
  }

  lemma {:induction false} HeldSplit(jobs: seq<Job>, i: nat)
    requires i < |jobs|
    ensures Held(jobs) == Held(jobs[..i]) + Holds(jobs[i]) + Held(jobs[i + 1..])
  {
    assert jobs == jobs[..i] + jobs[i..];
    HeldAppend(jobs[..i], jobs[i..]);
  }

  lemma {:induction false} HeldUpdate(jobs: seq<Job>, i: nat, j: Job)
    requires i < |jobs|
    ensures Held(jobs[i := j]) == Held(jobs) - Holds(jobs[i]) + Holds(j)
  {
    var jobs' := jobs[i := j];
    HeldSplit(jobs, i);
    HeldSplit(jobs', i);
    assert jobs'[..i] == jobs[..i] && jobs'[i + 1..] == jobs[i + 1..];
  }

  lemma {:induction false} HeldSame(a: seq<Job>, b: seq<Job>)
    requires |a| == |b| && forall i | 0 <= i < |a| :: Holds(a[i]) == Holds(b[i])
    ensures Held(a) == Held(b)
  {
    if a != [] {
      HeldSame(a[1..], b[1..]);
    }
  }

  // ---------- the invariant ----------

  predicate Parking(h: Handler) { !h.NoHandler? && !h.Called? }
  predicate Detaching(h: Handler) { h.Detached? || h.Cleared? || h.Raised? || h.Waited? }

  /** The device has been taken away from whatever was on it, and nothing can start. */
  predicate OffDevice(s: State) {
    || s.handler.Cleared? || s.handler.Raised? || s.handler.Waited?
    || s.removal.RemovalCleared? || s.removal.RemovalRaised? || s.removal.Retiring? || s.removal.Removed?
  }

  predicate WorkerGone(s: State) {
    s.handler.Waited? || s.removal.Retiring? || s.removal.Removed?
  }

  ghost predicate JobOk(s: State, i: nat)
    requires i < |s.jobs|
  {
    var j := s.jobs[i];
    && (j.stage.Running? ==> s.running == i)
    && (InFlight(j) && !j.signalled ==> s.active == i || OffDevice(s))
    && (j.stage.Dropped? ==> Detaching(s.handler))
    && (j.stage.Attached? ==> !Detaching(s.handler) && !j.signalled)
    && (j.stage.Queued? ==> !j.signalled)
    && (s.removal.Removed? ==> j.stage.Queued? || j.stage.Freed?)
  }

  ghost predicate JobsOk(s: State) {
    && (forall i | 0 <= i < |s.jobs| :: JobOk(s, i))
    && (forall i, k | 0 <= i < |s.jobs| && 0 <= k < |s.jobs| && InFlight(s.jobs[i]) && InFlight(s.jobs[k]) :: i == k)
  }

  ghost predicate OnDevice(s: State, i: int) {
    IsJob(s, i) && InFlight(s.jobs[i]) && !s.jobs[i].signalled
  }

  ghost predicate Control(s: State) {
    && (s.active == NULL || OnDevice(s, s.active))
    && (s.running == NULL || (IsJob(s, s.running) && s.jobs[s.running].stage.Running?))
    && (s.parked <==> Parking(s.handler))
    && (!s.handler.NoHandler? ==> s.removal.NotRemoving? && s.handler.job < |s.jobs|)
    && (s.dead <==> !s.removal.NotRemoving? && !s.removal.HandlerGone?)
    && (s.dead || s.parked ==> s.running == NULL)
    && (OffDevice(s) ==> s.active == NULL)
  }

  ghost predicate WorkerOk(s: State) {
    && (!s.sim ==> s.worker.Idle? && !s.queued)
    && (s.worker.Holds() ==> OnDevice(s, s.worker.job))
    && (WorkerGone(s) ==> s.worker.Idle? && !s.queued)
    && (s.sim && s.active != NULL ==> !s.simAbort)
  }

  /** Who is on the device, and who may touch it. */
  ghost predicate Core(s: State) {
    s.bad == {} && JobsOk(s) && Control(s) && WorkerOk(s)
  }

  ghost predicate Histories(jobs: seq<Job>) {
    forall i | 0 <= i < |jobs| :: HistoryOk(jobs[i])
  }

  ghost predicate RefsOk(refs: multiset<nat>, jobs: seq<Job>) {
    refs == Held(jobs) && forall i | 0 <= i < |jobs| :: |jobs[i].bindings| == BINDINGS
  }

  ghost predicate Inv(s: State) {
    Core(s) && Histories(s.jobs) && RefsOk(s.refs, s.jobs) && AllAttributed(s.jobs)
  }

  lemma {:induction false} InitHolds(sim: bool)
    ensures Inv(Init(sim))
  {
  }

  /** No completion accepted for job i was raised for another job; an interrupt names no job. */
  ghost predicate Attributed(i: int, j: Job) {
    forall e | e in j.history && (e.ConfigAccepted? || e.ExecAccepted?) :: e.source == i || e.source == NULL
  }

  ghost predicate AllAttributed(jobs: seq<Job>) {
    forall i | 0 <= i < |jobs| :: Attributed(i, jobs[i])
  }

  // ---------- steps keep Core ----------

  /** No other job is in flight. */
  ghost predicate Alone(s: State, i: int) {
    forall k | 0 <= k < |s.jobs| && k != i :: !InFlight(s.jobs[k])
  }

  lemma {:induction false} InFlightIsAlone(s: State, i: nat)
    requires JobsOk(s) && i < |s.jobs| && InFlight(s.jobs[i])
    ensures Alone(s, i)
  {
  }

  /** Changing job i when it is the only one that may be in flight. */
  lemma {:induction false} PutAlone(s: State, s': State, i: nat, j: Job)
    requires JobsOk(s) && i < |s.jobs| && s'.jobs == s.jobs[i := j] && JobOk(s', i) && Alone(s, i)
    requires s'.removal == s.removal
    ensures JobsOk(s') && Alone(s', i)
  {
    forall k | 0 <= k < |s'.jobs|
      ensures JobOk(s', k)
    {
      if k != i {
        assert JobOk(s, k);
        assert s'.jobs[k] == s.jobs[k];
      }
    }
  }

  /** Changing job i, which is not in flight afterwards, and nothing the others depend on. */
  lemma {:induction false} PutApart(s: State, s': State, i: nat, j: Job)
    requires JobsOk(s) && i < |s.jobs| && s'.jobs == s.jobs[i := j] && JobOk(s', i) && !InFlight(j)
    requires s'.handler == s.handler && s'.running == s.running && s'.active == s.active && s'.removal == s.removal
    ensures JobsOk(s')
  {
    forall k | 0 <= k < |s'.jobs|
      ensures JobOk(s', k)
    {
      if k != i {
        assert JobOk(s, k);
        assert s'.jobs[k] == s.jobs[k];
      }
    }
  }

  /** Nothing on the jobs changes, and the handler moves without dropping fences. */
  lemma {:induction false} SameJobs(s: State, s': State)
    requires JobsOk(s) && s'.jobs == s.jobs && s'.running == s.running
    requires Detaching(s'.handler) == Detaching(s.handler)
    requires OffDevice(s') || (s'.active == s.active && !OffDevice(s))
    requires s'.removal.Removed? ==> s.removal.Removed? || (NoneIn(s.jobs, Attached) && NoneIn(s.jobs, Finished) && s.running == NULL && !Detaching(s.handler))
    ensures JobsOk(s')
  {
    forall k | 0 <= k < |s'.jobs|
      ensures JobOk(s', k)
    {
      assert JobOk(s, k);
    }
  }

  lemma {:induction false} SubmitCore(s: State, bindings: seq<nat>, lanes: seq<Lane>)
    requires Core(s) && Enabled(s, Submit(bindings, lanes))
    ensures Core(Apply(s, Submit(bindings, lanes)))
  {
    var s' := Apply(s, Submit(bindings, lanes));
    forall k | 0 <= k < |s'.jobs|
      ensures JobOk(s', k)
    {
      if k < |s.jobs| {
        assert JobOk(s, k) && s'.jobs[k] == s.jobs[k];
      }
    }
    assert s.worker.Holds() ==> s'.jobs[s.worker.job] == s.jobs[s.worker.job];
  }

  /** When the scheduler may call run_job(), nothing is in flight. */
  lemma {:induction false} CreditIsFree(s: State)
    requires JobsOk(s) && Control(s) && !s.parked && s.running == NULL && NoneIn(s.jobs, Attached)
    ensures s.active == NULL && forall k | 0 <= k < |s.jobs| :: !InFlight(s.jobs[k])
  {
    forall k | 0 <= k < |s.jobs|
      ensures !InFlight(s.jobs[k])
    {
      assert JobOk(s, k);
    }
  }

  lemma {:induction false} RunJobCore(s: State, i: nat)
    requires Core(s) && Enabled(s, RunJob(i))
    ensures Core(Apply(s, RunJob(i)))
  {
    var s' := Apply(s, RunJob(i));
    CreditIsFree(s);
    assert JobOk(s, i);
    assert JobOk(s', i);
    PutAlone(s, s', i, s'.jobs[i]);
  }

  lemma {:induction false} AttachCore(s: State)
    requires Core(s) && Enabled(s, Attach)
    ensures Core(Apply(s, Attach))
  {
    var s', i := Apply(s, Attach), s.running;
    assert JobOk(s, i);
    InFlightIsAlone(s, i);
    assert JobOk(s', i);
    PutAlone(s, s', i, s'.jobs[i]);
  }

  /** strela_job_phase_done() for the config phase, whoever calls it. */
  lemma {:induction false} ConfigDoneCore(s: State, source: int)
    requires Core(s) && (source == NULL || OnDevice(s, source))
    ensures var s' := DoPhaseDone(s, Config, source);
      Core(s') && (source != NULL ==> OnDevice(s', source)) && s'.worker == s.worker
  {
    var s', i := DoPhaseDone(s, Config, source), s.active;
    if s' != s {
      assert JobOk(s, i);
      InFlightIsAlone(s, i);
      assert JobOk(s', i);
      PutAlone(s, s', i, s'.jobs[i]);
    }
  }

  /** The same for the exec phase: afterwards nothing may hold the job that completed. */
  lemma {:induction false} ExecDoneCore(s: State, source: int)
    requires Core(s) && (source == NULL || OnDevice(s, source))
    requires s.worker.Holds() ==> s.worker.ExecDone? && s.worker.job == source
    ensures Core(DoPhaseDone(s, Exec, source).(worker := if s.worker.Holds() then Idle else s.worker))
  {
    var d, i := DoPhaseDone(s, Exec, source), s.active;
    var s' := d.(worker := if s.worker.Holds() then Idle else s.worker);
    if d != s {
      assert JobOk(s, i);
      InFlightIsAlone(s, i);
      assert JobOk(s', i);
      PutAlone(s, s', i, s'.jobs[i]);
    } else {
      SameJobs(s, s');
    }
  }

  lemma {:induction false} DetachCore(s: State)
    requires Core(s) && Enabled(s, Detach)
    ensures Core(Apply(s, Detach))
  {
    var s' := Apply(s, Detach);
    forall k | 0 <= k < |s'.jobs|
      ensures JobOk(s', k) && InFlight(s'.jobs[k]) == InFlight(s.jobs[k])
    {
      assert JobOk(s, k);
    }
  }

  lemma {:induction false} RestartCore(s: State)
    requires Core(s) && Enabled(s, Restart)
    ensures Core(Apply(s, Restart))
  {
    var s' := Apply(s, Restart);
    forall k | 0 <= k < |s'.jobs|
      ensures JobOk(s', k) && !InFlight(s'.jobs[k])
    {
      assert JobOk(s, k);
    }
  }

  lemma {:induction false} FreeCore(s: State, i: nat)
    requires Core(s) && i < |s.jobs| && s.jobs[i].stage.Finished?
    ensures Core(DoFree(s, i))
  {
    var s' := DoFree(s, i);
    assert JobOk(s', i);
    PutApart(s, s', i, s'.jobs[i]);
  }

  lemma {:induction false} RetireCore(s: State, i: nat)
    requires Core(s) && Enabled(s, Retire(i))
    ensures Core(Apply(s, Retire(i)))
  {
    var s' := Apply(s, Retire(i));
    assert JobOk(s', i);
    PutApart(s, s', i, s'.jobs[i]);
  }

  predicate HandlerStep(a: Action) {
    a.Timeout? || a.Park? || a.AbortClear? || a.AbortRaise? || a.AbortWait?
  }

  predicate RemovalStep(a: Action) {
    a.RemoveWait? || a.RemoveSched? || a.RemoveClear? || a.RemoveRaise? || a.RemoveAbortWait? || a.RemoveDone?
  }

  predicate WorkStep(a: Action) {
    a.WorkStart? || a.WorkLock? || a.WorkAborted? || a.WorkElapsed? || a.WorkCopy?
  }

  lemma {:induction false} HandlerStepCore(s: State, a: Action)
    requires Core(s) && Enabled(s, a) && HandlerStep(a)
    ensures Core(Apply(s, a))
  {
    SameJobs(s, Apply(s, a));
  }

  lemma {:induction false} RemovalStepCore(s: State, a: Action)
    requires Core(s) && Enabled(s, a) && RemovalStep(a)
    ensures Core(Apply(s, a))
  {
    SameJobs(s, Apply(s, a));
  }

  lemma {:induction false} WorkStepCore(s: State, a: Action)
    requires Core(s) && Enabled(s, a) && WorkStep(a)
    ensures Core(Apply(s, a))
  {
    WorkStepJobs(s, a);
    if a.WorkCopy? {
      WorkCopyCore(s);
    } else {
      WorkMoveCore(s, a);
    }
  }

  lemma {:induction false} WorkStepJobs(s: State, a: Action)
    requires Core(s) && Enabled(s, a) && WorkStep(a)
    ensures JobsOk(Apply(s, a))
  {
    WorkQuiet(s, a);
    SameJobs(s, Apply(s, a));
  }

  lemma {:induction false} WorkMoveCore(s: State, a: Action)
    requires Core(s) && Enabled(s, a) && (a.WorkStart? || a.WorkLock? || a.WorkAborted? || a.WorkElapsed?)
    ensures var s' := Apply(s, a); s'.bad == {} && Control(s') && WorkerOk(s')
  {
  }

  /** The worker copies for a job that is still on the device, hence not freed. */
  lemma {:induction false} WorkCopyIs(s: State)
    requires Enabled(s, WorkCopy) && !s.jobs[s.worker.job].stage.Freed?
    ensures var w := s.worker;
      Apply(s, WorkCopy) ==
        s.(worker := AfterCopy(w, s.jobs[w.job].lanes[w.column].Fed()), copies := s.copies + [Copy(w.job, w.column)])
  {
  }

  lemma {:induction false} WorkerMovesOn(s: State, w: Worker, copies: seq<Copy>)
    requires Core(s) && s.worker.Holds() && (w.Idle? || (w.Holds() && w.job == s.worker.job))
    ensures var s' := s.(worker := w, copies := copies); s'.bad == {} && Control(s') && WorkerOk(s')
  {
  }

  lemma {:induction false} WorkCopyCore(s: State)
    requires Core(s) && Enabled(s, WorkCopy)
    ensures var s' := Apply(s, WorkCopy); s'.bad == {} && Control(s') && WorkerOk(s')
  {
    WorkCopyIs(s);
    WorkerMovesOn(s, Apply(s, WorkCopy).worker, Apply(s, WorkCopy).copies);
  }

  lemma {:induction false} WorkDoneCore(s: State, a: Action)
    requires Core(s) && Enabled(s, a) && (a.WorkConfigDone? || a.WorkExecDone?)
    ensures Core(Apply(s, a))
  {
    if a.WorkConfigDone? {
      ConfigDoneCore(s, s.worker.job);
      SameJobs(DoPhaseDone(s, Config, s.worker.job), Apply(s, a));
    } else {
      ExecDoneCore(s, s.worker.job);
    }
  }

  lemma {:induction false} InterruptCore(s: State, phase: Phase)
    requires Core(s) && Enabled(s, Interrupt(phase))
    ensures Core(Apply(s, Interrupt(phase)))
  {
    if phase == Config {
      ConfigDoneCore(s, NULL);
    } else {
      ExecDoneCore(s, NULL);
    }
  }

  predicate SchedStep(a: Action) {
    a.Submit? || a.RunJob? || a.Attach? || a.Detach? || a.Restart? || a.FreeJob? || a.Retire?
  }

  lemma {:induction false} SchedStepCore(s: State, a: Action)
    requires Core(s) && Enabled(s, a) && SchedStep(a)
    ensures Core(Apply(s, a))
  {
    match a
    case Submit(bindings, lanes) => SubmitCore(s, bindings, lanes);
    case RunJob(i) => RunJobCore(s, i);
    case Attach => AttachCore(s);
    case Detach => DetachCore(s);
    case Restart => RestartCore(s);
    case FreeJob(i) => FreeCore(s, i);
    case Retire(i) => RetireCore(s, i);
  }

  lemma {:induction false} StepKeepsCore(s: State, a: Action)
    requires Core(s) && Enabled(s, a)
    ensures Core(Apply(s, a))
  {
    if SchedStep(a) {
      SchedStepCore(s, a);
    } else if HandlerStep(a) {
      HandlerStepCore(s, a);
    } else if RemovalStep(a) {
      RemovalStepCore(s, a);
    } else if WorkStep(a) {
      WorkStepCore(s, a);
    } else if a.Interrupt? {
      InterruptCore(s, a.phase);
    } else {
      WorkDoneCore(s, a);
    }
  }

  // ---------- steps keep the histories ----------

  lemma {:induction false} PutHistory(jobs: seq<Job>, i: nat, j: Job)
    requires Histories(jobs) && i < |jobs| && HistoryOk(j)
    ensures Histories(jobs[i := j])
  {
    var jobs' := jobs[i := j];
    forall k | 0 <= k < |jobs'|
      ensures HistoryOk(jobs'[k])
    {
      assert k != i ==> jobs'[k] == jobs[k];
    }
  }

  lemma {:induction false} StartHistory(j: Job)
    requires HistoryOk(j) && j.stage.Queued?
    ensures HistoryOk(Note(j.(stage := Running, phase := Config), [Started]))
  {
    assert [] + [Started] == [Started];
  }

  lemma {:induction false} AttachHistory(j: Job)
    requires HistoryOk(j) && j.stage.Running?
    ensures HistoryOk(if j.signalled then End(j, Success) else j.(stage := Attached))
  {
    if j.signalled {
      assert End(j, Success).history[..4] == j.history;
    }
  }

  lemma {:induction false} ConfigHistory(j: Job, source: int)
    requires HistoryOk(j) && InFlight(j) && !j.signalled && j.phase == Config
    ensures HistoryOk(AfterPhase(j, Config, source))
  {
  }

  lemma {:induction false} ExecHistory(j: Job, source: int)
    requires HistoryOk(j) && InFlight(j) && !j.signalled && j.phase == Exec
    ensures HistoryOk(AfterPhase(j, Exec, source))
  {
    var x := Note(j.(signalled := true), [ExecAccepted(source), Signalled]);
    assert x.history[..2] == j.history;
    assert End(x, Success).history[..4] == x.history;
  }

  lemma {:induction false} CancelHistory(j: Job)
    requires HistoryOk(j) && j.stage.Dropped?
    ensures HistoryOk(End(j, Canceled))
  {
    var h := End(j, Canceled).history;
    assert h[..|h| - 1] == j.history;
  }

  lemma {:induction false} FreeHistory(j: Job)
    requires HistoryOk(j) && j.stage.Finished?
    ensures HistoryOk(Note(j.(stage := Freed), [Released]))
  {
    var h := Note(j, [Released]).history;
    assert h[..|h| - 1] == j.history;
  }

  lemma {:induction false} RetireHistory(s: State, i: nat)
    requires i < |s.jobs| && HistoryOk(s.jobs[i]) && (s.jobs[i].stage.Attached? || s.jobs[i].stage.Finished?)
    ensures HistoryOk(DoRetire(s, i).jobs[i])
  {
    var j, p := s.jobs[i], DoRetire(s, i).jobs[i].history;
    var q := p[..|p| - 1];
    if j.stage.Attached? {
      assert q == j.history + [Signalled, Ended(NoDevice)] && q[..|q| - 2] == j.history;
    } else if !j.signalled {
      assert q == j.history + [Signalled] && q[..|q| - 1] == j.history;
    } else {
      assert q == j.history;
    }
  }

  lemma {:induction false} PhaseDoneHistories(s: State, phase: Phase, source: int)
    requires Histories(s.jobs) && (s.active == NULL || OnDevice(s, s.active))
    ensures Histories(DoPhaseDone(s, phase, source).jobs)
  {
    if s.active != NULL && s.jobs[s.active].phase == phase {
      var j := s.jobs[s.active];
      if phase == Config {
        ConfigHistory(j, source);
      } else {
        ExecHistory(j, source);
      }
      PutHistory(s.jobs, s.active, AfterPhase(j, phase, source));
    }
  }

  ghost predicate SameRecords(s: State, s': State) {
    s'.jobs == s.jobs && s'.refs == s.refs
  }

  lemma {:induction false} HandlerQuiet(s: State, a: Action)
    requires Enabled(s, a) && HandlerStep(a)
    ensures SameRecords(s, Apply(s, a))
  {
  }

  lemma {:induction false} RemovalQuiet(s: State, a: Action)
    requires Enabled(s, a) && RemovalStep(a)
    ensures SameRecords(s, Apply(s, a))
  {
  }

  lemma {:induction false} WorkCopyQuiet(s: State)
    requires Enabled(s, WorkCopy)
    ensures SameRecords(s, Apply(s, WorkCopy))
  {
  }

  lemma {:induction false} WorkMoveQuiet(s: State, a: Action)
    requires Enabled(s, a) && (a.WorkStart? || a.WorkLock? || a.WorkAborted? || a.WorkElapsed?)
    ensures SameRecords(s, Apply(s, a))
  {
  }

  lemma {:induction false} WorkQuiet(s: State, a: Action)
    requires Enabled(s, a) && WorkStep(a)
    ensures SameRecords(s, Apply(s, a))
  {
    if a.WorkCopy? {
      WorkCopyQuiet(s);
    } else {
      WorkMoveQuiet(s, a);
    }
  }

  /** The steps that leave every job and every reference as it is. */
  lemma {:induction false} QuietSteps(s: State, a: Action)
    requires Enabled(s, a) && (HandlerStep(a) || RemovalStep(a) || WorkStep(a))
    ensures Apply(s, a).jobs == s.jobs && Apply(s, a).refs == s.refs
  {
    if HandlerStep(a) {
      HandlerQuiet(s, a);
    } else if RemovalStep(a) {
      RemovalQuiet(s, a);
    } else {
      WorkQuiet(s, a);
    }
  }

  lemma {:induction false} SubmitHistories(s: State, bindings: seq<nat>, lanes: seq<Lane>)
    requires Histories(s.jobs) && Enabled(s, Submit(bindings, lanes))
    ensures Histories(Apply(s, Submit(bindings, lanes)).jobs)
  {
    var s' := Apply(s, Submit(bindings, lanes));
    assert forall k | 0 <= k < |s.jobs| :: s'.jobs[k] == s.jobs[k];
  }

  lemma {:induction false} RestartHistories(s: State)
    requires Histories(s.jobs) && Enabled(s, Restart)
    ensures Histories(Apply(s, Restart).jobs)
  {
    forall k | 0 <= k < |s.jobs| && s.jobs[k].stage.Dropped?
      ensures HistoryOk(Apply(s, Restart).jobs[k])
    {
      CancelHistory(s.jobs[k]);
    }
  }

  lemma {:induction false} DetachHistories(s: State)
    requires Histories(s.jobs) && Enabled(s, Detach)
    ensures Histories(Apply(s, Detach).jobs)
  {
  }

  lemma {:induction false} RunHistories(s: State, i: nat)
    requires Histories(s.jobs) && Enabled(s, RunJob(i))
    ensures Histories(Apply(s, RunJob(i)).jobs)
  {
    StartHistory(s.jobs[i]);
    PutHistory(s.jobs, i, Apply(s, RunJob(i)).jobs[i]);
  }

  lemma {:induction false} AttachHistories(s: State)
    requires Core(s) && Histories(s.jobs) && Enabled(s, Attach)
    ensures Histories(Apply(s, Attach).jobs)
  {
    AttachHistory(s.jobs[s.running]);
    PutHistory(s.jobs, s.running, Apply(s, Attach).jobs[s.running]);
  }

  lemma {:induction false} FreeHistories(s: State, i: nat)
    requires Histories(s.jobs) && Enabled(s, FreeJob(i))
    ensures Histories(Apply(s, FreeJob(i)).jobs)
  {
    FreeHistory(s.jobs[i]);
    PutHistory(s.jobs, i, Apply(s, FreeJob(i)).jobs[i]);
  }

  lemma {:induction false} RetireHistories(s: State, i: nat)
    requires Histories(s.jobs) && Enabled(s, Retire(i))
    ensures Histories(Apply(s, Retire(i)).jobs)
  {
    RetireHistory(s, i);
    RetireTouchesOne(s, i);
    PutHistory(s.jobs, i, DoRetire(s, i).jobs[i]);
  }

  lemma {:induction false} RetireTouchesOne(s: State, i: nat)
    requires i < |s.jobs|
    ensures |DoRetire(s, i).jobs| == |s.jobs| && DoRetire(s, i).jobs == s.jobs[i := DoRetire(s, i).jobs[i]]
  {
  }

  lemma {:induction false} StepKeepsHistories(s: State, a: Action)
    requires Core(s) && Histories(s.jobs) && Enabled(s, a)
    ensures Histories(Apply(s, a).jobs)
  {
    match a
    case Submit(bindings, lanes) => SubmitHistories(s, bindings, lanes);
    case RunJob(i) => RunHistories(s, i);
    case Attach => AttachHistories(s);
    case FreeJob(i) => FreeHistories(s, i);
    case Retire(i) => RetireHistories(s, i);
    case Interrupt(phase) => PhaseDoneHistories(s, phase, NULL);
    case Detach => DetachHistories(s);
    case Restart => RestartHistories(s);
    case WorkConfigDone => PhaseDoneHistories(s, Config, s.worker.job);
    case WorkExecDone => PhaseDoneHistories(s, Exec, s.worker.job);
    case _ => QuietSteps(s, a);
  }

  // ---------- steps keep the references ----------

  lemma {:induction false} PutRefs(refs: multiset<nat>, jobs: seq<Job>, i: nat, j: Job)
    requires RefsOk(refs, jobs) && i < |jobs| && j.bindings == jobs[i].bindings
    ensures j.stage.Freed? == jobs[i].stage.Freed? ==> RefsOk(refs, jobs[i := j])
    ensures j.stage.Freed? && !jobs[i].stage.Freed? ==> RefsOk(refs - multiset(jobs[i].bindings), jobs[i := j])
  {
    HeldChange(jobs, i, j);
    assert forall k | 0 <= k < |jobs| :: jobs[i := j][k].bindings == jobs[k].bindings;
  }

  lemma {:induction false} HeldChange(jobs: seq<Job>, i: nat, j: Job)
    requires i < |jobs|
    ensures Holds(j) == Holds(jobs[i]) ==> Held(jobs[i := j]) == Held(jobs)
    ensures Holds(j) == multiset{} ==> Held(jobs[i := j]) == Held(jobs) - Holds(jobs[i])
  {
    HeldUpdate(jobs, i, j);
    HeldSplit(jobs, i);
  }

  lemma {:induction false} SubmitRefs(s: State, bindings: seq<nat>, lanes: seq<Lane>)
    requires RefsOk(s.refs, s.jobs) && Enabled(s, Submit(bindings, lanes))
    ensures var s' := Apply(s, Submit(bindings, lanes)); RefsOk(s'.refs, s'.jobs)
  {
    var s' := Apply(s, Submit(bindings, lanes));
    var j := Job(Queued, Config, false, bindings, lanes, []);
    HeldAppend(s.jobs, [j]);
    assert [j][1..] == [];
    assert Held([j]) == multiset(bindings);
  }

  lemma {:induction false} SameRefs(refs: multiset<nat>, a: seq<Job>, b: seq<Job>)
    requires RefsOk(refs, a) && |a| == |b|
    requires forall i | 0 <= i < |a| :: b[i].bindings == a[i].bindings && b[i].stage.Freed? == a[i].stage.Freed?
    ensures RefsOk(refs, b)
  {
    HeldSame(a, b);
  }

  lemma {:induction false} DetachRefs(s: State)
    requires RefsOk(s.refs, s.jobs) && Enabled(s, Detach)
    ensures RefsOk(s.refs, Apply(s, Detach).jobs)
  {
    SameRefs(s.refs, s.jobs, Apply(s, Detach).jobs);
  }

  lemma {:induction false} RestartRefs(s: State)
    requires RefsOk(s.refs, s.jobs) && Enabled(s, Restart)
    ensures RefsOk(s.refs, Apply(s, Restart).jobs)
  {
    SameRefs(s.refs, s.jobs, Apply(s, Restart).jobs);
  }

  lemma {:induction false} PhaseDoneJobs(s: State, phase: Phase, source: int)
    requires s.active == NULL || OnDevice(s, s.active)
    ensures var s', i := DoPhaseDone(s, phase, source), s.active;
      && s'.refs == s.refs
      && (s'.jobs == s.jobs || (i != NULL && s'.jobs == s.jobs[i := AfterPhase(s.jobs[i], phase, source)]))
    ensures s.active != NULL ==>
      var j, j' := s.jobs[s.active], AfterPhase(s.jobs[s.active], phase, source);
      j'.bindings == j.bindings && !j'.stage.Freed? && !j.stage.Freed?
  {
  }

  lemma {:induction false} PhaseDoneRefs(s: State, phase: Phase, source: int)
    requires RefsOk(s.refs, s.jobs) && (s.active == NULL || OnDevice(s, s.active))
    ensures var s' := DoPhaseDone(s, phase, source); s'.refs == s.refs && RefsOk(s.refs, s'.jobs)
  {
    PhaseDoneJobs(s, phase, source);
    if s.active != NULL {
      PutRefs(s.refs, s.jobs, s.active, AfterPhase(s.jobs[s.active], phase, source));
    }
  }

  lemma {:induction false} SchedRefs(s: State, a: Action)
    requires Core(s) && RefsOk(s.refs, s.jobs) && Enabled(s, a) && (a.RunJob? || a.Attach? || a.FreeJob? || a.Retire?)
    ensures var s' := Apply(s, a); RefsOk(s'.refs, s'.jobs)
  {
    var i, s' := if a.Attach? then s.running else a.job, Apply(s, a);
    var j := s'.jobs[i];
    assert s'.jobs == s.jobs[i := j] && j.bindings == s.jobs[i].bindings && !s.jobs[i].stage.Freed?;
    PutRefs(s.refs, s.jobs, i, j);
  }

  lemma {:induction false} StepKeepsRefs(s: State, a: Action)
    requires Core(s) && RefsOk(s.refs, s.jobs) && Enabled(s, a)
    ensures var s' := Apply(s, a); RefsOk(s'.refs, s'.jobs)
  {
    match a
    case Submit(bindings, lanes) => SubmitRefs(s, bindings, lanes);
    case RunJob(_) => SchedRefs(s, a);
    case Attach => SchedRefs(s, a);
    case FreeJob(_) => SchedRefs(s, a);
    case Retire(_) => SchedRefs(s, a);
    case Interrupt(phase) => PhaseDoneRefs(s, phase, NULL);
    case Detach => DetachRefs(s);
    case Restart => RestartRefs(s);
    case WorkConfigDone => PhaseDoneRefs(s, Config, s.worker.job);
    case WorkExecDone => PhaseDoneRefs(s, Exec, s.worker.job);
    case _ => QuietSteps(s, a);
  }

  // ---------- steps keep the attribution ----------

  /** One job's history grew by events that carry no source, or by well attributed ones. */
  lemma {:induction false} PutAttributed(jobs: seq<Job>, i: nat, j: Job)
    requires AllAttributed(jobs) && i < |jobs| && Attributed(i, j)
    ensures AllAttributed(jobs[i := j])
  {
    var jobs' := jobs[i := j];
    forall k | 0 <= k < |jobs'|
      ensures Attributed(k, jobs'[k])
    {
      assert k != i ==> jobs'[k] == jobs[k];
    }
  }

  predicate Unsourced(e: Event) { !e.ConfigAccepted? && !e.ExecAccepted? }

  lemma {:induction false} NoteUnsourced(i: int, j: Job, j': Job, es: seq<Event>)
    requires Attributed(i, j) && j'.history == j.history + es && forall e | e in es :: Unsourced(e)
    ensures Attributed(i, j')
  {
  }

  /** What the scheduler's and removal's steps add to a history. */
  lemma {:induction false} SchedAttribution(s: State, a: Action)
    requires Core(s) && AllAttributed(s.jobs) && Enabled(s, a) && (a.RunJob? || a.Attach? || a.FreeJob?)
    ensures AllAttributed(Apply(s, a).jobs)
  {
    var i, jobs' := if a.Attach? then s.running else a.job, Apply(s, a).jobs;
    var es := if a.RunJob? then [Started] else if a.FreeJob? then [Released]
      else if s.jobs[i].signalled then [Ended(Success)] else [];
    assert jobs' == s.jobs[i := jobs'[i]];
    NoteUnsourced(i, s.jobs[i], jobs'[i], es);
    PutAttributed(s.jobs, i, jobs'[i]);
  }

  lemma {:induction false} RetireAppends(s: State, i: nat, es: seq<Event>)
    requires i < |s.jobs| && (s.jobs[i].stage.Attached? || s.jobs[i].stage.Finished?)
    requires es == if s.jobs[i].signalled then [Released]
      else if s.jobs[i].stage.Attached? then [Signalled, Ended(NoDevice), Released] else [Signalled, Released]
    ensures DoRetire(s, i).jobs[i].history == s.jobs[i].history + es
  {
  }

  lemma {:induction false} RetireAttribution(s: State, i: nat)
    requires AllAttributed(s.jobs) && i < |s.jobs| && (s.jobs[i].stage.Attached? || s.jobs[i].stage.Finished?)
    ensures AllAttributed(DoRetire(s, i).jobs)
  {
    var j := s.jobs[i];
    var es := if j.signalled then [Released]
      else if j.stage.Attached? then [Signalled, Ended(NoDevice), Released] else [Signalled, Released];
    RetireTouchesOne(s, i);
    var j' := DoRetire(s, i).jobs[i];
    assert Attributed(i, j') by {
      RetireAppends(s, i, es);
      NoteUnsourced(i, j, j', es);
    }
    PutAttributed(s.jobs, i, j');
  }

  lemma {:induction false} PhaseDoneAttribution(s: State, phase: Phase, source: int)
    requires AllAttributed(s.jobs) && (s.active == NULL || OnDevice(s, s.active))
    requires s.active != NULL ==> source == s.active || source == NULL
    ensures AllAttributed(DoPhaseDone(s, phase, source).jobs)
  {
    if s.active != NULL {
      PutAttributed(s.jobs, s.active, AfterPhase(s.jobs[s.active], phase, source));
    }
  }

  lemma {:induction false} RestartAttribution(s: State)
    requires AllAttributed(s.jobs) && Enabled(s, Restart)
    ensures AllAttributed(Apply(s, Restart).jobs)
  {
    var jobs' := Apply(s, Restart).jobs;
    forall k | 0 <= k < |jobs'|
      ensures Attributed(k, jobs'[k])
    {
      assert Attributed(k, s.jobs[k]);
      NoteUnsourced(k, s.jobs[k], End(s.jobs[k], Canceled), [Ended(Canceled)]);
    }
  }

  lemma {:induction false} DetachAttribution(s: State)
    requires AllAttributed(s.jobs) && Enabled(s, Detach)
    ensures AllAttributed(Apply(s, Detach).jobs)
  {
    var jobs' := Apply(s, Detach).jobs;
    forall k | 0 <= k < |jobs'|
      ensures Attributed(k, jobs'[k])
    {
      assert Attributed(k, s.jobs[k]) && jobs'[k].history == s.jobs[k].history;
    }
  }

  lemma {:induction false} SubmitAttribution(s: State, bindings: seq<nat>, lanes: seq<Lane>)
    requires AllAttributed(s.jobs) && Enabled(s, Submit(bindings, lanes))
    ensures AllAttributed(Apply(s, Submit(bindings, lanes)).jobs)
  {
    var jobs' := Apply(s, Submit(bindings, lanes)).jobs;
    assert forall k | 0 <= k < |s.jobs| :: jobs'[k] == s.jobs[k];
  }

  /** The worker reports for the job on the device, if there is one. */
  lemma {:induction false} WorkerReportsActive(s: State)
    requires Core(s) && s.worker.Holds()
    ensures s.active == NULL || s.active == s.worker.job
  {
  }

  lemma {:induction false} StepKeepsAttribution(s: State, a: Action)
    requires Core(s) && AllAttributed(s.jobs) && Enabled(s, a)
    ensures AllAttributed(Apply(s, a).jobs)
  {
    match a
    case Submit(bindings, lanes) => SubmitAttribution(s, bindings, lanes);
    case RunJob(_) => SchedAttribution(s, a);
    case Attach => SchedAttribution(s, a);
    case FreeJob(_) => SchedAttribution(s, a);
    case Retire(i) => RetireAttribution(s, i);
    case Interrupt(phase) => PhaseDoneAttribution(s, phase, NULL);
    case Detach => DetachAttribution(s);
    case Restart => RestartAttribution(s);
    case WorkConfigDone =>
      WorkerReportsActive(s);
      PhaseDoneAttribution(s, Config, s.worker.job);
    case WorkExecDone =>
      WorkerReportsActive(s);
      PhaseDoneAttribution(s, Exec, s.worker.job);
    case _ => QuietSteps(s, a);
  }

  // ---------- every run ----------

  lemma {:induction false} StepKeeps(s: State, a: Action)
    requires Inv(s) && Enabled(s, a)
    ensures Inv(Apply(s, a))
  {
    StepKeepsCore(s, a);
    StepKeepsHistories(s, a);
    StepKeepsRefs(s, a);
    StepKeepsAttribution(s, a);
  }

  lemma {:induction false} RunKeeps(s: State, run: seq<Action>)
    requires Inv(s) && AllEnabled(s, run)
    ensures Inv(Run(s, run))
    decreases run
  {
    if run != [] {
      StepKeeps(s, run[0]);
      RunKeeps(Apply(s, run[0]), run[1..]);
    }
  }

  /** A state some run leads to. */
  ghost predicate Reachable(s: State) {
    exists sim: bool, run: seq<Action> :: AllEnabled(Init(sim), run) && Run(Init(sim), run) == s
  }

  lemma {:induction false} ReachableIsInv(s: State)
    requires Reachable(s)
    ensures Inv(s)
  {
    var sim: bool, run: seq<Action> :| AllEnabled(Init(sim), run) && Run(Init(sim), run) == s;
    InitHolds(sim);
    RunKeeps(Init(sim), run);
  }

  /**
   In no interleaving does either drm_WARN_ON on `active` fire, is a freed job touched, or is a
   completion raised for one job accepted for another.
   */
  lemma {:induction false} NothingBadHappens(s: State)
    requires Reachable(s)
    ensures s.bad == {}
  {
    ReachableIsInv(s);
  }

  /**
   `active` is null or the one started job whose hardware fence has not signalled; it is not
   freed, and the simulator's abort line is down for it. Conversely a started, unsignalled,
   unfinished job is active unless it is being taken off the device.
   */
  lemma {:induction false} ActiveIsTheJobInFlight(s: State)
    requires Reachable(s)
    ensures s.active != NULL ==>
      && IsJob(s, s.active) && InFlight(s.jobs[s.active]) && !s.jobs[s.active].signalled
      && Started in s.jobs[s.active].history && Signalled !in s.jobs[s.active].history
      && (forall k | 0 <= k < |s.jobs| && InFlight(s.jobs[k]) :: k == s.active)
      && (s.sim ==> !s.simAbort)
    ensures forall k | 0 <= k < |s.jobs| && InFlight(s.jobs[k]) && !s.jobs[k].signalled ::
      s.active == k || OffDevice(s)
  {
    ReachableIsInv(s);
    forall k | 0 <= k < |s.jobs| && InFlight(s.jobs[k]) && !s.jobs[k].signalled
      ensures s.active == k || OffDevice(s)
    {
      assert JobOk(s, k);
    }
    if s.active != NULL {
      assert HistoryOk(s.jobs[s.active]);
    }
  }

  /** The pointer the simulated worker keeps after unlocking never dangles. */
  lemma {:induction false} WorkerNeverDangles(s: State)
    requires Reachable(s) && s.worker.Holds()
    ensures IsJob(s, s.worker.job) && !s.jobs[s.worker.job].stage.Freed? && !s.jobs[s.worker.job].stage.Finished?
    ensures s.active == NULL || s.active == s.worker.job
  {
    ReachableIsInv(s);
    WorkerReportsActive(s);
  }

  // ---------- what every job goes through ----------

  ghost predicate AtMostOnce(h: seq<Event>, p: Event -> bool) {
    forall i, k | 0 <= i < |h| && 0 <= k < |h| && p(h[i]) && p(h[k]) :: i == k
  }

  ghost predicate IsEnd(e: Event) { e.Ended? }
  ghost predicate IsSignal(e: Event) { e.Signalled? }
  ghost predicate IsRelease(e: Event) { e.Released? }

  /** config, then exec, then success, in that order. */
  ghost predicate EarnedSuccess(h: seq<Event>) {
    forall p | 0 <= p < |h| && h[p] == Ended(Success) ::
      p == 4 && h[1].ConfigAccepted? && h[2].ExecAccepted? && h[3] == Signalled
  }

  ghost predicate Once(h: seq<Event>) {
    AtMostOnce(h, IsSignal) && AtMostOnce(h, IsEnd) && AtMostOnce(h, IsRelease) && EarnedSuccess(h)
  }

  ghost predicate HasEnd(h: seq<Event>) {
    exists k :: 0 <= k < |h| && IsEnd(h[k])
  }

  ghost predicate EndedProperly(h: seq<Event>) {
    Once(h) && HasEnd(h) && Released !in h && |h| > 0 && h[0] == Started
  }

  lemma {:induction false} CompletedThenEnded(h: seq<Event>)
    requires |h| == 5 && Completed(h[..4]) && h[4].Ended?
    ensures EndedProperly(h)
  {
    assert h[..4][..2] == h[..2];
    assert h[0] == Started && h[1].ConfigAccepted? && h[2].ExecAccepted? && h[3] == Signalled;
    assert IsEnd(h[4]);
    assert h == [h[0], h[1], h[2], h[3], h[4]];
  }

  /** On the device, in either phase, as a list of its events. */
  lemma {:induction false} UnderwayIs(h: seq<Event>, phase: Phase)
    requires Underway(h, phase)
    ensures h == [Started] || (|h| == 2 && h == [Started, h[1]] && h[1].ConfigAccepted?)
  {
  }

  lemma {:induction false} CanceledThenMaybeSignalled(p: seq<Event>, phase: Phase, tail: seq<Event>)
    requires Underway(p, phase)
    requires tail == [Ended(Canceled)] || tail == [Ended(Canceled), Signalled] || tail == [Signalled, Ended(NoDevice)]
    ensures EndedProperly(p + tail)
  {
    UnderwayIs(p, phase);
    var h := p + tail;
    assert h[0] == Started;
    if tail[0].Ended? {
      assert IsEnd(h[|p|]);
    } else {
      assert IsEnd(h[|p| + 1]);
    }
    if |p| == 1 {
      assert h == [Started] + tail;
    } else {
      assert h == [Started, p[1]] + tail;
    }
  }

  /** A history that is over: one end, no release yet, nothing twice. */
  lemma {:induction false} OverFacts(h: seq<Event>, phase: Phase)
    requires Over(h, phase)
    ensures EndedProperly(h)
  {
    var n := |h|;
    if Succeeded(h) || CompletedTooLate(h) {
      CompletedThenEnded(h);
    } else if WasCanceled(h, phase) {
      assert h == h[..n - 1] + [Ended(Canceled)];
      CanceledThenMaybeSignalled(h[..n - 1], phase, [Ended(Canceled)]);
    } else if WasRemoved(h, phase) {
      assert h == h[..n - 2] + [Signalled, Ended(NoDevice)];
      CanceledThenMaybeSignalled(h[..n - 2], phase, [Signalled, Ended(NoDevice)]);
    } else {
      assert h[..n - 1][..n - 2] == h[..n - 2];
      assert h == h[..n - 2] + [Ended(Canceled), Signalled];
      CanceledThenMaybeSignalled(h[..n - 2], phase, [Ended(Canceled), Signalled]);
    }
  }

  lemma {:induction false} NotOverFacts(h: seq<Event>, phase: Phase)
    requires Underway(h, phase) || Completed(h)
    ensures Once(h) && !HasEnd(h) && Released !in h && h[0] == Started
  {
  }

  lemma {:induction false} ReleaseHappensOnce(p: seq<Event>)
    requires Once(p) && Released !in p
    ensures Once(p + [Released])
  {
    assert forall k | 0 <= k < |p| :: p[k] in p;
  }

  lemma {:induction false} ReleaseFacts(h: seq<Event>)
    requires |h| > 1 && h[|h| - 1] == Released
    requires var p := h[..|h| - 1]; Once(p) && HasEnd(p) && Released !in p && p[0] == Started
    ensures Once(h) && HasEnd(h) && Released in h && Started in h
  {
    var p := h[..|h| - 1];
    assert h == p + [Released];
    ReleaseHappensOnce(p);
    var k :| 0 <= k < |p| && IsEnd(p[k]);
    assert IsEnd(h[k]);
  }

  lemma {:induction false} HistoryFacts(j: Job)
    requires HistoryOk(j)
    ensures Once(j.history)
    ensures HasEnd(j.history) <==> j.stage.Finished? || j.stage.Freed?
    ensures Released in j.history <==> j.stage.Freed?
    ensures Started in j.history <==> !j.stage.Queued?
  {
    var h := j.history;
    if j.stage.Queued? {
    } else if j.stage.Finished? {
      OverFacts(h, j.phase);
    } else if j.stage.Freed? {
      OverFacts(h[..|h| - 1], j.phase);
      ReleaseFacts(h);
    } else {
      NotOverFacts(h, j.phase);
    }
  }

  /**
   Over every run each job's hardware fence signals at most once, it ends at most once and is
   freed at most once; it has ended exactly when it is finished or freed; and it succeeds only
   after its config and then its exec completion were accepted.
   */
  lemma {:induction false} EveryJobEndsOnce(s: State, i: nat)
    requires Reachable(s) && i < |s.jobs|
    ensures var j := s.jobs[i];
      && Once(j.history)
      && (HasEnd(j.history) <==> j.stage.Finished? || j.stage.Freed?)
      && Attributed(i, j)
  {
    ReachableIsInv(s);
    HistoryFacts(s.jobs[i]);
  }

  /** When removal is done, every job that was started has ended, once, and is freed. */
  lemma {:induction false} RemovalRetiresEverything(s: State, i: nat)
    requires Reachable(s) && s.removal.Removed? && i < |s.jobs| && Started in s.jobs[i].history
    ensures var j := s.jobs[i];
      j.stage.Freed? && Released in j.history && HasEnd(j.history) && Once(j.history)
    ensures s.active == NULL && s.worker.Idle?
  {
    ReachableIsInv(s);
    assert JobOk(s, i);
    HistoryFacts(s.jobs[i]);
  }

  /** Buffers are referenced by exactly the jobs that are not freed, nine references each. */
  lemma {:induction false} ReferencesBalance(s: State)
    requires Reachable(s)
    ensures s.refs == Held(s.jobs)
    ensures forall i | 0 <= i < |s.jobs| && !s.jobs[i].stage.Freed? :: |Holds(s.jobs[i])| == BINDINGS
    ensures (forall i | 0 <= i < |s.jobs| :: s.jobs[i].stage.Freed?) ==> s.refs == multiset{}
  {
    ReachableIsInv(s);
    if forall i | 0 <= i < |s.jobs| :: s.jobs[i].stage.Freed? {
      AllFreedHoldNothing(s.jobs);
    }
  }

  lemma {:induction false} AllFreedHoldNothing(jobs: seq<Job>)
    requires forall i | 0 <= i < |jobs| :: jobs[i].stage.Freed?
    ensures Held(jobs) == multiset{}
  {
    if jobs != [] {
      AllFreedHoldNothing(jobs[1..]);
    }
  }

  // ---------- runs that exist ----------

  lemma {:induction false} ReachableStep(s: State, a: Action)
    requires Reachable(s) && Enabled(s, a)
    ensures Reachable(Apply(s, a))
  {
    var sim: bool, run: seq<Action> :| AllEnabled(Init(sim), run) && Run(Init(sim), run) == s;
    RunSnoc(Init(sim), run, a);
  }

  lemma {:induction false} RunSnoc(s: State, run: seq<Action>, a: Action)
    requires AllEnabled(s, run) && Enabled(Run(s, run), a)
    ensures AllEnabled(s, run + [a]) && Run(s, run + [a]) == Apply(Run(s, run), a)
    decreases run
  {
    if run == [] {
      assert run + [a] == [a] && [a][1..] == [];
    } else {
      assert (run + [a])[1..] == run[1..] + [a];
      RunSnoc(Apply(s, run[0]), run[1..], a);
    }
  }

  lemma {:induction false} InitIsReachable(sim: bool)
    ensures Reachable(Init(sim))
  {
    assert AllEnabled(Init(sim), []) && Run(Init(sim), []) == Init(sim);
  }

  /** A job of a real device that is in its exec phase, alone. */
  lemma {:induction false} ExecIsReachable(bindings: seq<nat>, lanes: seq<Lane>) returns (s: State)
    requires |bindings| == BINDINGS && |lanes| == COLUMNS
    ensures Reachable(s) && !s.sim && s.handler.NoHandler? && s.removal.NotRemoving? && s.running == NULL && s.active == 0
    ensures s.worker.Idle? && !s.parked && !s.dead
    ensures s.jobs == [Job(Attached, Exec, false, bindings, lanes, [Started, ConfigAccepted(NULL)])]
  {
    InitIsReachable(false);
    s := Init(false);
    ReachableStep(s, Submit(bindings, lanes));
    s := Apply(s, Submit(bindings, lanes));
    ReachableStep(s, RunJob(0));
    s := Apply(s, RunJob(0));
    assert s.jobs[0].history == [Started];
    ReachableStep(s, Attach);
    s := Apply(s, Attach);
    ReachableStep(s, Interrupt(Config));
    s := Apply(s, Interrupt(Config));
    assert [Started] + [ConfigAccepted(NULL)] == [Started, ConfigAccepted(NULL)];
    assert s.jobs[0] == Job(Attached, Exec, false, bindings, lanes, [Started, ConfigAccepted(NULL)]);
  }

  lemma {:induction false} SuccessIsReachable(bindings: seq<nat>, lanes: seq<Lane>) returns (s: State)
    requires |bindings| == BINDINGS && |lanes| == COLUMNS
    ensures Reachable(s) && |s.jobs| == 1 && Succeeded(s.jobs[0].history) && s.jobs[0].stage.Finished?
    ensures !s.sim && s.handler.NoHandler? && s.removal.NotRemoving? && s.running == NULL && s.worker.Idle? && !s.parked && !s.dead
  {
    s := ExecIsReachable(bindings, lanes);
    ReachableStep(s, Interrupt(Exec));
    s := Apply(s, Interrupt(Exec));
    var h := s.jobs[0].history;
    assert h == [Started, ConfigAccepted(NULL), ExecAccepted(NULL), Signalled, Ended(Success)];
    assert h[..4][..2] == [Started, ConfigAccepted(NULL)];
  }

  /**
   The converse of "success needs both completions" is false: when the exec completion lands
   between drm_sched_stop() and the abort, the driver accepts it and the job is still canceled.
   */
  lemma {:induction false} LateCompletionIsLost(bindings: seq<nat>, lanes: seq<Lane>) returns (s: State)
    requires |bindings| == BINDINGS && |lanes| == COLUMNS
    ensures Reachable(s) && |s.jobs| == 1 && CompletedTooLate(s.jobs[0].history)
  {
    s := ExecIsReachable(bindings, lanes);
    ReachableStep(s, Timeout(0));
    s := Apply(s, Timeout(0));
    ReachableStep(s, Park);
    s := Apply(s, Park);
    ReachableStep(s, Detach);
    s := Apply(s, Detach);
    assert s.jobs == [Job(Dropped, Exec, false, bindings, lanes, [Started, ConfigAccepted(NULL)])];
    ReachableStep(s, Interrupt(Exec));
    s := Apply(s, Interrupt(Exec));
    var h := s.jobs[0].history;
    assert h == [Started, ConfigAccepted(NULL), ExecAccepted(NULL), Signalled];
    s := Restarted(s);
    assert s.jobs[0].history[..4] == h;
    assert h[..2] == [Started, ConfigAccepted(NULL)];
  }

  /** Exactly when an accepted exec completion is lost: the timeout handler has dropped the fence. */
  lemma {:induction false} CompletionIsLostIff(s: State, source: int)
    requires Reachable(s) && s.active != NULL && IsJob(s, s.active) && s.jobs[s.active].phase == Exec
    ensures var j := DoPhaseDone(s, Exec, source).jobs[s.active];
      && (j.stage.Dropped? <==> Detaching(s.handler))
      && (!j.stage.Dropped? ==> Succeeded(j.history) || (j.stage.Running? && j.signalled && Succeeded(End(j, Success).history)))
      && (j.stage.Dropped? ==> CompletedTooLate(End(j, Canceled).history))
  {
    ReachableIsInv(s);
    var i := s.active;
    assert JobOk(s, i);
    ExecHistory(s.jobs[i], source);
    var j := AfterPhase(s.jobs[i], Exec, source);
    if !j.stage.Finished? {
      assert End(j, Success).history[..4] == j.history && End(j, Canceled).history[..4] == j.history;
    }
  }

  /** A job that completed before its fence reached the scheduler succeeds then; any other is waited for. */
  lemma {:induction false} AttachOutcome(s: State)
    requires Reachable(s) && Enabled(s, Attach)
    ensures var j, j' := s.jobs[s.running], Apply(s, Attach).jobs[s.running];
      && (Signalled in j.history ==> j'.stage.Finished? && Succeeded(j'.history) && j'.history == j.history + [Ended(Success)])
      && (Signalled !in j.history ==> j'.stage.Attached? && j'.history == j.history)
      && Apply(s, Attach).running == NULL
  {
    ReachableIsInv(s);
    var j := s.jobs[s.running];
    assert HistoryOk(j);
    AttachHistory(j);
    if j.signalled {
      assert j.history[3] == Signalled;
      assert End(j, Success).history[..4] == j.history;
    }
  }

  lemma {:induction false} NextIsRunning(bindings: seq<nat>, lanes: seq<Lane>) returns (s: State)
    requires |bindings| == BINDINGS && |lanes| == COLUMNS
    ensures Reachable(s) && !s.sim && s.handler.NoHandler? && s.removal.NotRemoving? && s.running == NULL && s.worker.Idle?
    ensures |s.jobs| == 2 && s.jobs[0].stage.Finished? && s.jobs[1] == Job(Attached, Config, false, bindings, lanes, [Started])
    ensures Succeeded(s.jobs[0].history)
  {
    s := SuccessIsReachable(bindings, lanes);
    ReachableStep(s, Submit(bindings, lanes));
    s := Apply(s, Submit(bindings, lanes));
    ReachableStep(s, RunJob(1));
    s := Apply(s, RunJob(1));
    assert s.jobs[1] == Job(Running, Config, false, bindings, lanes, [Started]);
    ReachableStep(s, Attach);
    s := Apply(s, Attach);
  }

  /** A photo finish costs the next job: the handler called for a job that succeeds cancels its successor. */
  lemma {:induction false} PhotoFinishIsReachable(bindings: seq<nat>, lanes: seq<Lane>) returns (s: State)
    requires |bindings| == BINDINGS && |lanes| == COLUMNS
    ensures Reachable(s) && |s.jobs| == 2 && Succeeded(s.jobs[0].history) && s.jobs[1].history == [Started, Ended(Canceled)]
  {
    s := NextIsRunning(bindings, lanes);
    ReachableStep(s, Timeout(0));
    s := Apply(s, Timeout(0));
    ReachableStep(s, Park);
    s := Apply(s, Park);
    ReachableStep(s, Detach);
    s := Apply(s, Detach);
    assert s.jobs[1].stage.Dropped? && s.jobs[1].history == [Started];
    s := Restarted(s);
    assert [Started] + [Ended(Canceled)] == [Started, Ended(Canceled)];
  }

  /** The rest of the timeout handler, on a real device. */
  lemma {:induction false} Restarted(s: State) returns (r: State)
    requires Reachable(s) && s.handler.Detached? && !s.sim && s.worker.Idle?
    ensures Reachable(r) && |r.jobs| == |s.jobs|
    ensures forall i | 0 <= i < |s.jobs| ::
      r.jobs[i] == if s.jobs[i].stage.Dropped? then End(s.jobs[i], Canceled) else s.jobs[i]
  {
    r := s;
    ReachableStep(r, AbortClear);
    r := Apply(r, AbortClear);
    ReachableStep(r, AbortRaise);
    r := Apply(r, AbortRaise);
    ReachableStep(r, AbortWait);
    r := Apply(r, AbortWait);
    assert r.jobs == s.jobs;
    ReachableStep(r, Restart);
    r := Apply(r, Restart);
  }
}
