/**
 The driver's job protocol as a state machine: submit, the DRM scheduler's calls into the
 driver, phase completions, the timeout handler, removal, and the simulated device's worker.

 A region the source protects with sdev->lock is one step; so is every access to shared state
 outside it. Steps of different threads interleave freely, subject to Enabled.

 The scheduler is an environment. What is assumed of it is exactly the guards of the steps
 marked [sched]: run_job is called one job at a time, not while parked, not while another
 started job's hardware fence is attached, and never after drm_sched_fini(); stopping and
 tearing down wait for a run_job in progress; a job is freed only after it is finished, and
 not while a timeout handler was called for it; no timeout handler starts once removal has
 waited for the one that may be running.
 */
module JobProtocol {
  import Binding

  const NULL: int := -1

  /** The four I/O columns of the device. */
  const COLUMNS: nat := 4
  /** A job binds its configuration, four inputs and four outputs. */
  const BINDINGS: nat := 9

  datatype Phase = Config | Exec

  datatype Outcome = Success | Canceled | NoDevice

  datatype Stage =
    | Queued           // pushed to its entity, not started
    | Running          // run_job() was called; its fence is not with the scheduler yet
    | Attached         // the scheduler waits on the hardware fence
    | Dropped          // drm_sched_stop() dropped the hardware fence
    | Finished         // the fence userspace waits on has signalled
    | Freed

  /** What happened to a job, in order. */
  datatype Event =
    | Started
    | ConfigAccepted(source: int)  // the job the worker raised it for; NULL for an interrupt
    | ExecAccepted(source: int)
    | Signalled                // the hardware fence
    | Ended(outcome: Outcome)  // the fence userspace waits on
    | Released                 // references dropped, memory freed

  /** The words of one column pair; an output has a stride of 1. */
  datatype Lane = Lane(input: Binding.Strided, output: Binding.Strided) {
    /** The input sends as many words as the output waits for. */
    predicate Fed() { output.count <= input.count }
  }

  datatype Job = Job(
    stage: Stage, phase: Phase, signalled: bool, bindings: seq<nat>, lanes: seq<Lane>, history: seq<Event>)

  /** The worker copied one column of a job. */
  datatype Copy = Copy(job: nat, column: nat)

  /** Where the timeout handler is; job is the one it was called for. */
  datatype Handler =
    | NoHandler
    | Called(job: nat)
    | Parked(job: nat)
    | Detached(job: nat)
    | Cleared(job: nat)
    | Raised(job: nat)
    | Waited(job: nat)

  /** Where strela_job_fini() is. */
  datatype Removal = NotRemoving | HandlerGone | SchedGone | RemovalCleared | RemovalRaised | Retiring | Removed

  /** Where strela_sim_work() is, and the job it holds a pointer to. */
  datatype Worker =
    | Idle
    | Entered
    | ConfigWait(job: nat)
    | ConfigDone(job: nat)
    | ExecWait(job: nat, column: nat, fed: bool)  // fed: every output so far got its words
    | Copying(job: nat, column: nat, fed: bool)
    | ExecDone(job: nat)
  {
    predicate Holds() { !Idle? && !Entered? }
  }

  /** Things that must never happen. */
  datatype Violation =
    | WarnRunJob      // drm_WARN_ON in strela_run_job(): a second job while one is on the device
    | WarnHwStop      // drm_WARN_ON in strela_hw_stop(): stopped with a job on the device
    | TouchesFreed    // a pointer to a freed job is used
    | Misattributed   // a completion raised for one job is accepted for another

  datatype State = State(
    sim: bool,
    // the driver
    jobs: seq<Job>,
    active: int,
    refs: multiset<nat>,
    // the scheduler, the timeout handler, removal
    running: int,
    parked: bool,
    dead: bool,
    handler: Handler,
    removal: Removal,
    // the simulated device
    simAbort: bool,
    queued: bool,
    worker: Worker,
    copies: seq<Copy>,  // every column copied so far, in order
    bad: set<Violation>)

  function Init(sim: bool): State {
    State(sim, [], NULL, multiset{}, NULL, false, false, NoHandler, NotRemoving, false, false, Idle, [], {})
  }

  datatype Action =
    | Submit(bindings: seq<nat>, lanes: seq<Lane>)
    | RunJob(job: nat)                // [sched] strela_run_job()
    | Attach                          // [sched] it returns the fence
    | Interrupt(phase: Phase)         // the completion interrupt of a real device
    | Timeout(job: nat)               // [sched] strela_timedout_job() is called
    | Park                            // [sched] drm_sched_stop(): work items stopped
    | Detach                          // [sched] drm_sched_stop(): hardware fences dropped
    | AbortClear                      // strela_job_abort(): the locked region
    | AbortRaise                      // strela_hw_stop(): reset, or raise sim_abort
    | AbortWait                       // strela_hw_stop(): cancel_work_sync()
    | Restart                         // [sched] drm_sched_start()
    | FreeJob(job: nat)               // [sched] strela_free_job()
    | RemoveWait                      // strela_job_fini(): cancel_delayed_work_sync()
    | RemoveSched                     // [sched] drm_sched_fini()
    | RemoveClear
    | RemoveRaise
    | RemoveAbortWait
    | Retire(job: nat)                // one turn of the loop over the pending list
    | RemoveDone
    | WorkStart                       // the workqueue starts strela_sim_work()
    | WorkLock                        // it reads sdev->active
    | WorkAborted                     // a wait saw sim_abort
    | WorkElapsed                     // a wait ran its course
    | WorkConfigDone                  // it reports the config phase
    | WorkCopy                        // it copies one column
    | WorkExecDone                    // it reports the exec phase

  // ---------- the driver's functions ----------

  function Note(j: Job, es: seq<Event>): Job { j.(history := j.history + es) }

  function Put(s: State, i: nat, j: Job): State
    requires i < |s.jobs|
  {
    s.(jobs := s.jobs[i := j])
  }

  predicate InFlight(j: Job) { j.stage.Running? || j.stage.Attached? || j.stage.Dropped? }

  predicate IsJob(s: State, i: int) { 0 <= i < |s.jobs| }

  /** The scheduler's fence signals with an outcome. */
  function End(j: Job, o: Outcome): Job { Note(j.(stage := Finished), [Ended(o)]) }

  /** The locked region of strela_run_job(). */
  function DoRunJob(s: State, i: nat): State
    requires i < |s.jobs|
  {
    var s1 := if s.active != NULL then s.(bad := s.bad + {WarnRunJob}) else s;
    var s2 := Put(s1, i, Note(s.jobs[i].(stage := Running, phase := Config), [Started]));
    var s3 := s2.(active := i, running := i);
    if s.sim then s3.(simAbort := false, queued := true) else s3
  }

  /** What an accepted completion does to the job: the next phase, or the hardware fence signals. */
  function AfterPhase(j: Job, phase: Phase, source: int): Job {
    match phase
    case Config => Note(j.(phase := Exec), [ConfigAccepted(source)])
    case Exec =>
      var done := Note(j.(signalled := true), [ExecAccepted(source), Signalled]);
      if j.stage.Attached? then End(done, Success) else done
  }

  /** strela_job_phase_done(). */
  function DoPhaseDone(s: State, phase: Phase, source: int): State
    requires s.active == NULL || IsJob(s, s.active)
  {
    if s.active == NULL || s.jobs[s.active].phase != phase then s
    else
      var s1 := if source != NULL && source != s.active then s.(bad := s.bad + {Misattributed}) else s;
      var s2 := Put(s1, s.active, AfterPhase(s.jobs[s.active], phase, source));
      if phase == Exec then s2.(active := NULL) else s2
  }

  /** strela_free_job(): one reference per binding is dropped. */
  function DoFree(s: State, i: nat): State
    requires i < |s.jobs|
  {
    var s1 := if s.jobs[i].stage.Freed? then s.(bad := s.bad + {TouchesFreed}) else s;
    Put(s1, i, Note(s.jobs[i].(stage := Freed), [Released])).(refs := s.refs - multiset(s.jobs[i].bindings))
  }

  /** strela_hw_stop() up to the wait. */
  function DoRaise(s: State): State {
    var s1 := if s.active != NULL then s.(bad := s.bad + {WarnHwStop}) else s;
    if s.sim then s1.(simAbort := true) else s1
  }

  function DoRetire(s: State, i: nat): State
    requires i < |s.jobs|
  {
    var j := s.jobs[i];
    var j1 := if !j.signalled then Note(j.(signalled := true), [Signalled]) else j;
    var j2 := if !j.signalled && j.stage.Attached? then End(j1, NoDevice) else j1;
    DoFree(Put(s, i, j2), i)
  }

  /** The worker after it copied a column; an output that is not fed never completes. */
  function AfterCopy(w: Worker, fed: bool): Worker
    requires w.Copying?
  {
    var fed := w.fed && fed;
    if w.column + 1 < COLUMNS then ExecWait(w.job, w.column + 1, fed) else if fed then ExecDone(w.job) else Idle
  }

  /** One turn of the copy loop in strela_sim_work(). */
  function DoCopy(s: State): State
    requires s.worker.Copying? && IsJob(s, s.worker.job) && s.worker.column < |s.jobs[s.worker.job].lanes|
  {
    var w, j := s.worker, s.jobs[s.worker.job];
    var s1 := if j.stage.Freed? then s.(bad := s.bad + {TouchesFreed}) else s;
    s1.(worker := AfterCopy(w, j.lanes[w.column].Fed()), copies := s.copies + [Copy(w.job, w.column)])
  }

  function MapStage(jobs: seq<Job>, from: Stage, f: Job -> Job): (r: seq<Job>)
    ensures |r| == |jobs|
    ensures forall i | 0 <= i < |jobs| :: r[i] == if jobs[i].stage == from then f(jobs[i]) else jobs[i]
  {
    if jobs == [] then []
    else [if jobs[0].stage == from then f(jobs[0]) else jobs[0]] + MapStage(jobs[1..], from, f)
  }

  // ---------- the steps ----------

  predicate NoneIn(jobs: seq<Job>, stage: Stage) {
    forall i | 0 <= i < |jobs| :: jobs[i].stage != stage
  }

  predicate Enabled(s: State, a: Action) {
    match a
    case Submit(bindings, lanes) => |bindings| == BINDINGS && |lanes| == COLUMNS
    case RunJob(i) =>
      && i < |s.jobs| && s.jobs[i].stage.Queued? && !s.parked && !s.dead
      && s.running == NULL && NoneIn(s.jobs, Attached)
    case Attach => IsJob(s, s.running)
    case Interrupt(_) => !s.sim && (s.active == NULL || IsJob(s, s.active))
    case Timeout(i) =>
      && i < |s.jobs| && s.handler.NoHandler? && s.removal.NotRemoving?
      && (s.jobs[i].stage.Running? || s.jobs[i].stage.Attached? || s.jobs[i].stage.Finished?)
    case Park => s.handler.Called? && s.running == NULL
    case Detach => s.handler.Parked?
    case AbortClear => s.handler.Detached?
    case AbortRaise => s.handler.Cleared?
    case AbortWait => s.handler.Raised? && s.worker.Idle?
    case Restart => s.handler.Waited?
    case FreeJob(i) =>
      && i < |s.jobs| && s.jobs[i].stage.Finished? && !s.dead
      && (s.handler.NoHandler? || s.handler.job != i)
    case RemoveWait => s.removal.NotRemoving? && s.handler.NoHandler?
    case RemoveSched => s.removal.HandlerGone? && s.running == NULL
    case RemoveClear => s.removal.SchedGone?
    case RemoveRaise => s.removal.RemovalCleared?
    case RemoveAbortWait => s.removal.RemovalRaised? && s.worker.Idle?
    case Retire(i) =>
      s.removal.Retiring? && i < |s.jobs| && (s.jobs[i].stage.Attached? || s.jobs[i].stage.Finished?)
    case RemoveDone => s.removal.Retiring? && NoneIn(s.jobs, Attached) && NoneIn(s.jobs, Finished)
    case WorkStart => s.queued && s.worker.Idle?
    case WorkLock => s.worker.Entered?
    case WorkAborted => (s.worker.ConfigWait? || s.worker.ExecWait?) && s.simAbort
    case WorkElapsed => (s.worker.ConfigWait? || s.worker.ExecWait?) && !s.simAbort
    case WorkConfigDone => s.worker.ConfigDone? && (s.active == NULL || IsJob(s, s.active))
    case WorkCopy =>
      s.worker.Copying? && IsJob(s, s.worker.job) && s.worker.column < |s.jobs[s.worker.job].lanes|
    case WorkExecDone => s.worker.ExecDone? && (s.active == NULL || IsJob(s, s.active))
  }

  function Apply(s: State, a: Action): State
    requires Enabled(s, a)
  {
    match a
    case Submit(bindings, lanes) =>
      s.(jobs := s.jobs + [Job(Queued, Config, false, bindings, lanes, [])], refs := s.refs + multiset(bindings))
    case RunJob(i) => DoRunJob(s, i)
    case Attach =>
      var j := s.jobs[s.running];
      Put(s, s.running, if j.signalled then End(j, Success) else j.(stage := Attached)).(running := NULL)
    case Interrupt(phase) => DoPhaseDone(s, phase, NULL)
    case Timeout(i) => s.(handler := Called(i))
    case Park => s.(parked := true, handler := Parked(s.handler.job))
    case Detach =>
      s.(jobs := MapStage(s.jobs, Attached, (j: Job) => j.(stage := Dropped)), handler := Detached(s.handler.job))
    case AbortClear => s.(active := NULL, handler := Cleared(s.handler.job))
    case AbortRaise => DoRaise(s).(handler := Raised(s.handler.job))
    case AbortWait => s.(queued := false, handler := Waited(s.handler.job))
    case Restart =>
      s.(jobs := MapStage(s.jobs, Dropped, (j: Job) => End(j, Canceled)), parked := false, handler := NoHandler)
    case FreeJob(i) => DoFree(s, i)
    case RemoveWait => s.(removal := HandlerGone)
    case RemoveSched => s.(dead := true, removal := SchedGone)
    case RemoveClear => s.(active := NULL, removal := RemovalCleared)
    case RemoveRaise => DoRaise(s).(removal := RemovalRaised)
    case RemoveAbortWait => s.(queued := false, removal := Retiring)
    case Retire(i) => DoRetire(s, i)
    case RemoveDone => s.(removal := Removed)
    case WorkStart => s.(queued := false, worker := Entered)
    case WorkLock => s.(worker := if s.active == NULL || s.active < 0 then Idle else ConfigWait(s.active))
    case WorkAborted => s.(worker := Idle)
    case WorkElapsed =>
      s.(worker := if s.worker.ConfigWait? then ConfigDone(s.worker.job) else Copying(s.worker.job, s.worker.column, s.worker.fed))
    case WorkConfigDone => DoPhaseDone(s, Config, s.worker.job).(worker := ExecWait(s.worker.job, 0, true))
    case WorkCopy => DoCopy(s)
    case WorkExecDone => DoPhaseDone(s, Exec, s.worker.job).(worker := Idle)
  }

  // ---------- runs ----------

  ghost predicate AllEnabled(s: State, run: seq<Action>)
    decreases run
  {
    run == [] || (Enabled(s, run[0]) && AllEnabled(Apply(s, run[0]), run[1..]))
  }

  ghost function Run(s: State, run: seq<Action>): State
    requires AllEnabled(s, run)
    decreases run
  {
    if run == [] then s else Run(Apply(s, run[0]), run[1..])
  }
}
