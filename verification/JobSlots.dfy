/**
 The job slots of lib/strela.c: which sync object and which descriptor each slot owns, over
 whole runs of the library against the kernel and the rest of the process.

 System calls answer nondeterministically: the answer is part of the call, and Enabled says
 which answers the kernel can give.
 */
module JobSlots {
  import PoolAllocator

  const NONE: int := -1
  const JOBS_MAX: nat := 16

  const OK: int := 0
  const BAD_ARG: int := -1  // -STRELA_ERR_BAD_ARG
  const NO_MEM: int := -2   // -STRELA_ERR_NO_MEM
  const EINTR: int := 4

  datatype Phase = Unused | Configured | Submitted | Done

  /** struct strela_job_slot: of `submit` only out_syncobj; `job` names the last job submitted from it. */
  datatype Slot = Slot(phase: Phase, syncobj: int, fd: int, status: int, job: int)

  /** What a descriptor of the process refers to. */
  datatype Holder = Fence(job: int) | Other

  datatype Kernel = Kernel(
    jobs: seq<bool>,          // every job accepted, in order; true once it is out of the driver
    syncobjs: map<int, int>,  // the sync objects that exist, and the job whose fence each holds
    fds: map<int, Holder>)    // the open descriptors

  datatype Violation =
    | ClosedTwice          // close() of a descriptor that is not open: the library aborts
    | ClosedOther          // close() of a descriptor the slot does not own
    | DestroyedTwice       // destroying a sync object that does not exist: the library aborts
    | LeftInDriver         // a slot released or submitted again while its job is in the driver

  datatype State = State(initialized: bool, errnum: int, slots: seq<Slot>, kernel: Kernel, bad: set<Violation>)

  datatype Handle = Handle(valid: bool, index: nat)

  datatype Answer = Gives(value: int) | Fails(errno: int)

  datatype Poll = Expired | PollFails(errno: int) | Ready(info: Answer)

  datatype Call =
    | ResetErr
    | Config(kernelValid: bool, kernel: nat, created: Answer)
    | Submit(job: Handle, accepted: Answer, exported: Answer)
    | Update(job: Handle, answer: Poll)         // strela_job_poll() and strela_job_wait()
    | Free(job: Handle)
    | FreeAll
    // not calls of the library
    | JobDone(id: nat)                          // the driver finishes a job
    | Opens(fd: int)                            // the process opens something else
    | Closes(fd: int)

  predicate Ok(s: State) { s.initialized && s.errnum == OK }

  function Fail(s: State, e: int): State { s.(errnum := e) }

  function Blame(s: State, when: bool, v: Violation): State {
    if when then s.(bad := s.bad + {v}) else s
  }

  predicate InDriver(k: Kernel, job: int) { 0 <= job < |k.jobs| && !k.jobs[job] }

  const FREE_SLOT := Slot(Unused, 0, NONE, 0, NONE)

  // ---------- the library's functions ----------

  /** strela_job_slot_get(): whether a handle names a slot in one of the phases. */
  predicate Names(s: State, h: Handle, phases: set<Phase>) {
    h.valid && h.index < |s.slots| && s.slots[h.index].phase in phases
  }

  function CloseFd(s: State, fd: int, owner: int): State {
    var s1 := Blame(s, fd !in s.kernel.fds, ClosedTwice);
    var s2 := Blame(s1, fd in s.kernel.fds && s.kernel.fds[fd] != Fence(owner), ClosedOther);
    s2.(kernel := s.kernel.(fds := s.kernel.fds - {fd}))
  }

  function Destroy(s: State, syncobj: int): State {
    var s1 := Blame(s, syncobj !in s.kernel.syncobjs, DestroyedTwice);
    s1.(kernel := s.kernel.(syncobjs := s.kernel.syncobjs - {syncobj}))
  }

  /** strela_job_slot_release(), once strela_job_slot_finish() has returned. */
  function Release(s: State, i: nat): State
    requires i < |s.slots|
  {
    var slot := s.slots[i];
    if slot.phase.Unused? then s
    else
      var s1 := if slot.fd != NONE then CloseFd(s, slot.fd, slot.job) else s;
      var s2 := if slot.syncobj != 0 then Destroy(s1, slot.syncobj) else s1;
      var s3 := Blame(s2, InDriver(s.kernel, slot.job), LeftInDriver);
      s3.(slots := s.slots[i := FREE_SLOT])
  }

  function ReleaseFrom(s: State, i: nat): State
    decreases |s.slots| - i
  {
    if i >= |s.slots| then s else ReleaseFrom(Release(s, i), i + 1)
  }

  /** The first slot of a phase, from i on, or the number of slots. */
  function FirstUnused(slots: seq<Slot>, i: nat): (r: nat)
    requires i <= |slots|
    ensures i <= r <= |slots| && (r < |slots| ==> slots[r].phase.Unused?)
    ensures forall k | i <= k < r :: !slots[k].phase.Unused?
    decreases |slots| - i
  {
    if i == |slots| || slots[i].phase.Unused? then i else FirstUnused(slots, i + 1)
  }

  /** strela_job_config(). */
  function DoConfig(s: State, kernelValid: bool, kernel: nat, created: Answer): State {
    if !Ok(s) then s
    else if !kernelValid || kernel >= PoolAllocator.KERNELS then Fail(s, BAD_ARG)
    else
      var i := FirstUnused(s.slots, 0);
      if i == |s.slots| then Fail(s, NO_MEM)
      else if created.Fails? then Fail(Release(s, i), created.errno)
      else
        var k := s.kernel;
        s.(slots := s.slots[i := Slot(Configured, created.value, NONE, s.slots[i].status, NONE)],
           kernel := k.(syncobjs := k.syncobjs[created.value := NONE]))
  }

  /** The driver accepts the job and puts its fence in the slot's sync object. */
  function Accept(s: State, i: nat): State
    requires i < |s.slots|
  {
    var k := s.kernel;
    s.(kernel := k.(jobs := k.jobs + [false], syncobjs := k.syncobjs[s.slots[i].syncobj := |k.jobs|]))
  }

  /** strela_job_submit() after the driver has accepted job `id`. */
  function AfterAccept(s: State, i: nat, id: nat, exported: Answer): State
    requires i < |s.slots|
  {
    var slot := s.slots[i];
    var s1 := if slot.phase.Done? then CloseFd(s, slot.fd, slot.job) else s;
    match exported
    case Fails(e) => s1.(slots := s.slots[i := slot.(phase := Submitted, job := id)], errnum := e)
    case Gives(fd) =>
      s1.(slots := s.slots[i := slot.(phase := Submitted, job := id, fd := fd)],
          kernel := s1.kernel.(fds := s1.kernel.fds[fd := Fence(id)]))
  }

  /** strela_job_submit(). */
  function DoSubmit(s: State, job: Handle, accepted: Answer, exported: Answer): State {
    if !Ok(s) then s
    else if !Names(s, job, {Configured, Done}) then Fail(s, BAD_ARG)
    else if accepted.Fails? then Fail(s, accepted.errno)
    else
      var s1 := Blame(s, InDriver(s.kernel, s.slots[job.index].job), LeftInDriver);
      AfterAccept(Accept(s1, job.index), job.index, |s.kernel.jobs|, exported)
  }

  /** strela_job_update(), behind strela_job_slot_get(). */
  function DoUpdate(s: State, job: Handle, answer: Poll): State {
    if !Ok(s) then s
    else if !Names(s, job, {Submitted, Done}) then Fail(s, BAD_ARG)
    else
      var slot := s.slots[job.index];
      if slot.phase.Done? then s
      else match answer
        case Expired => s
        case PollFails(e) => if e == EINTR then s else Fail(s, e)
        case Ready(Fails(e)) => Fail(s, e)
        case Ready(Gives(status)) => s.(slots := s.slots[job.index := slot.(phase := Done, status := status)])
  }

  function DoFree(s: State, job: Handle): State {
    if !Ok(s) then s
    else if !Names(s, job, {Unused, Configured, Submitted, Done}) then Fail(s, BAD_ARG)
    else Release(s, job.index)
  }

  function Step(s: State, c: Call): State {
    match c
    case ResetErr => if s.initialized then s.(errnum := OK) else s
    case Config(valid, kernel, created) => DoConfig(s, valid, kernel, created)
    case Submit(job, accepted, exported) => DoSubmit(s, job, accepted, exported)
    case Update(job, answer) => DoUpdate(s, job, answer)
    case Free(job) => DoFree(s, job)
    case FreeAll => if Ok(s) then ReleaseFrom(s, 0) else s
    case JobDone(id) =>
      if id < |s.kernel.jobs| then s.(kernel := s.kernel.(jobs := s.kernel.jobs[id := true])) else s
    case Opens(fd) => s.(kernel := s.kernel.(fds := s.kernel.fds[fd := Other]))
    case Closes(fd) => s.(kernel := s.kernel.(fds := s.kernel.fds - {fd}))
  }

  // ---------- what the kernel can answer ----------

  /** poll() without a timeout returns: also on a descriptor that is not open, or not a fence. */
  predicate PollReturns(k: Kernel, fd: int) {
    fd in k.fds && k.fds[fd].Fence? ==> !InDriver(k, k.fds[fd].job)
  }

  /** strela_job_slot_finish() returns. */
  predicate FinishReturns(k: Kernel, slot: Slot) {
    slot.phase.Submitted? ==>
      if slot.fd != NONE then PollReturns(k, slot.fd)
      else slot.syncobj in k.syncobjs && !InDriver(k, k.syncobjs[slot.syncobj])
  }

  predicate AnswerOk(a: Answer) { a.Fails? ==> a.errno > 0 }

  predicate PollOk(k: Kernel, slot: Slot, a: Poll) {
    match a
    case Expired => true
    case PollFails(e) => e > 0
    case Ready(info) =>
      // poll() ignores a negative descriptor, and the ioctl fails on one that is not open
      && AnswerOk(info) && slot.fd != NONE && PollReturns(k, slot.fd)
      && (info.Gives? ==> slot.fd in k.fds)
  }

  /** The number of a new descriptor is free by then: on a resubmit the old one was closed before. */
  predicate FreshFd(k: Kernel, slot: Slot, fd: int) {
    0 <= fd && (fd !in k.fds || (slot.phase.Done? && fd == slot.fd))
  }

  predicate Enabled(s: State, c: Call) {
    match c
    case ResetErr => true
    case Config(_, _, created) =>
      AnswerOk(created) && (created.Gives? ==> created.value > 0 && created.value !in s.kernel.syncobjs)
    case Submit(job, accepted, exported) =>
      && AnswerOk(accepted) && AnswerOk(exported)
      && (accepted.Gives? ==> accepted.value == |s.kernel.jobs|)  // the new job's name
      && (job.index < |s.slots| && exported.Gives? ==> FreshFd(s.kernel, s.slots[job.index], exported.value))
    case Update(job, answer) => job.index < |s.slots| ==> PollOk(s.kernel, s.slots[job.index], answer)
    case Free(job) => Ok(s) && job.index < |s.slots| ==> FinishReturns(s.kernel, s.slots[job.index])
    case FreeAll => Ok(s) ==> forall i | 0 <= i < |s.slots| :: FinishReturns(s.kernel, s.slots[i])
    case JobDone(id) => id < |s.kernel.jobs|
    case Opens(fd) => 0 <= fd && fd !in s.kernel.fds
    case Closes(fd) => fd in s.kernel.fds && s.kernel.fds[fd].Other?
  }

  /** strela_dev_init(): no slot is used; its memset leaves descriptor 0 in slots that own none. */
  function Init(fds: map<int, Holder>): State {
    State(true, OK, seq(JOBS_MAX, _ => Slot(Unused, 0, 0, 0, NONE)), Kernel([], map[], fds), {})
  }

  ghost predicate AllEnabled(s: State, calls: seq<Call>)
    decreases calls
  {
    calls == [] || (Enabled(s, calls[0]) && AllEnabled(Step(s, calls[0]), calls[1..]))
  }

  ghost function Run(s: State, calls: seq<Call>): State
    decreases calls
  {
    if calls == [] then s else Run(Step(s, calls[0]), calls[1..])
  }
}
