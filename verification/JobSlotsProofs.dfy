/**
 What every slot owns, over every run.
 */
module JobSlotsProofs {
  import opened JobSlots
  import PoolAllocator

  predicate HasJob(slot: Slot) { slot.phase.Submitted? || slot.phase.Done? }
  predicate HasSyncobj(slot: Slot, o: int) { !slot.phase.Unused? && slot.syncobj == o }
  predicate HasFd(slot: Slot, fd: int) { HasJob(slot) && slot.fd == fd }

  /** A configured slot owns a sync object; a submitted one also the fence of its job, if it could be exported; a done one certainly. */
  predicate SlotOk(k: Kernel, slot: Slot) {
    !slot.phase.Unused? ==>
      && slot.syncobj != 0 && slot.syncobj in k.syncobjs && k.syncobjs[slot.syncobj] == slot.job
      && (slot.phase.Configured? ==> slot.fd == NONE && slot.job == NONE)
      && (HasJob(slot) ==> 0 <= slot.job < |k.jobs|)
      && (HasJob(slot) && slot.fd != NONE ==> slot.fd in k.fds && k.fds[slot.fd] == Fence(slot.job))
      && (slot.phase.Done? ==> slot.fd != NONE && !InDriver(k, slot.job))
  }

  ghost predicate SlotsOk(k: Kernel, slots: seq<Slot>) {
    forall i | 0 <= i < |slots| :: SlotOk(k, slots[i])
  }

  /** No two slots own the same thing. */
  ghost predicate Distinct(slots: seq<Slot>) {
    forall i, j | 0 <= i < |slots| && 0 <= j < |slots| && i != j && !slots[i].phase.Unused? && !slots[j].phase.Unused? ::
      slots[i].syncobj != slots[j].syncobj && (HasJob(slots[i]) ==> slots[i].job != slots[j].job)
  }

  /** Everything the library obtained from the kernel and did not give back is owned by a slot. */
  ghost predicate NothingLost(k: Kernel, slots: seq<Slot>) {
    && (forall o | o in k.syncobjs :: exists i :: 0 <= i < |slots| && HasSyncobj(slots[i], o))
    && (forall fd | fd in k.fds && k.fds[fd].Fence? :: exists i :: 0 <= i < |slots| && HasFd(slots[i], fd))
    && (forall id | 0 <= id < |k.jobs| && !k.jobs[id] ::
          exists i :: 0 <= i < |slots| && slots[i].phase.Submitted? && slots[i].job == id)
    && NONE !in k.fds
  }

  ghost predicate Owns(s: State) {
    |s.slots| == JOBS_MAX && s.bad == {} && SlotsOk(s.kernel, s.slots) && Distinct(s.slots) && NothingLost(s.kernel, s.slots)
  }

  lemma {:induction false} InitOwns(fds: map<int, Holder>)
    requires NONE !in fds && forall fd | fd in fds :: fds[fd].Other?
    ensures Owns(Init(fds))
  {
  }

  // ---------- release ----------

  /** The slot's job is out of the driver. */
  predicate Settled(k: Kernel, slot: Slot) {
    slot.phase.Submitted? ==> !InDriver(k, slot.job)
  }

  lemma {:induction false} FinishMeansSettled(k: Kernel, slot: Slot)
    requires SlotOk(k, slot)
    ensures FinishReturns(k, slot) <==> Settled(k, slot)
  {
  }

  /** A release closes and destroys what the slot owns, once, and frees the slot. */
  lemma {:induction false} ReleaseIs(s: State, i: nat)
    requires Owns(s) && i < |s.slots| && Settled(s.kernel, s.slots[i]) && !s.slots[i].phase.Unused?
    ensures var slot, k := s.slots[i], s.kernel;
      Release(s, i) == s.(slots := s.slots[i := FREE_SLOT],
        kernel := Kernel(k.jobs, k.syncobjs - {slot.syncobj}, if slot.fd != NONE then k.fds - {slot.fd} else k.fds))
  {
    assert SlotOk(s.kernel, s.slots[i]);
  }

  lemma {:induction false} OthersStayOk(s: State, i: nat, j: nat)
    requires Owns(s) && i < |s.slots| && j < |s.slots| && i != j && !s.slots[i].phase.Unused?
    ensures var slot, k := s.slots[i], s.kernel;
      SlotOk(Kernel(k.jobs, k.syncobjs - {slot.syncobj}, if slot.fd != NONE then k.fds - {slot.fd} else k.fds), s.slots[j])
  {
    assert SlotOk(s.kernel, s.slots[i]) && SlotOk(s.kernel, s.slots[j]);
  }

  lemma {:induction false} LostNothing(s: State, i: nat)
    requires Owns(s) && i < |s.slots| && Settled(s.kernel, s.slots[i]) && !s.slots[i].phase.Unused?
    ensures NothingLost(Release(s, i).kernel, Release(s, i).slots)
  {
    ReleaseIs(s, i);
    var k, slots, k', slots' := s.kernel, s.slots, Release(s, i).kernel, Release(s, i).slots;
    assert SlotOk(k, slots[i]);
    forall o | o in k'.syncobjs
      ensures exists j :: 0 <= j < |slots'| && HasSyncobj(slots'[j], o)
    {
      var j :| 0 <= j < |slots| && HasSyncobj(slots[j], o);
      assert HasSyncobj(slots'[j], o);
    }
    forall fd | fd in k'.fds && k'.fds[fd].Fence?
      ensures exists j :: 0 <= j < |slots'| && HasFd(slots'[j], fd)
    {
      var j :| 0 <= j < |slots| && HasFd(slots[j], fd);
      assert HasFd(slots'[j], fd);
    }
    forall id | 0 <= id < |k'.jobs| && !k'.jobs[id]
      ensures exists j :: 0 <= j < |slots'| && slots'[j].phase.Submitted? && slots'[j].job == id
    {
      var j :| 0 <= j < |slots| && slots[j].phase.Submitted? && slots[j].job == id;
      assert slots'[j] == slots[j];
    }
  }

  lemma {:induction false} ReleaseKeepsSlots(s: State, i: nat)
    requires Owns(s) && i < |s.slots| && Settled(s.kernel, s.slots[i]) && !s.slots[i].phase.Unused?
    ensures SlotsOk(Release(s, i).kernel, Release(s, i).slots)
  {
    ReleaseIs(s, i);
    var s' := Release(s, i);
    forall j | 0 <= j < |s'.slots|
      ensures SlotOk(s'.kernel, s'.slots[j])
    {
      if j != i {
        OthersStayOk(s, i, j);
      }
    }
  }

  /** A slot that keeps what it owns, or gives it up, keeps the slots distinct. */
  lemma {:induction false} StillDistinct(slots: seq<Slot>, i: nat, slot: Slot)
    requires Distinct(slots) && i < |slots|
    requires slot.phase.Unused? || (HasJob(slots[i]) && slot.syncobj == slots[i].syncobj && slot.job == slots[i].job)
    ensures Distinct(slots[i := slot])
  {
  }

  lemma {:induction false} ReleaseKeeps(s: State, i: nat)
    requires Owns(s) && i < |s.slots| && Settled(s.kernel, s.slots[i])
    ensures Owns(Release(s, i))
    ensures Release(s, i).kernel.jobs == s.kernel.jobs && Release(s, i).slots[i].phase.Unused?
    ensures forall j | 0 <= j < |s.slots| && j != i :: Release(s, i).slots[j] == s.slots[j]
  {
    if !s.slots[i].phase.Unused? {
      ReleaseKeepsSlots(s, i);
      LostNothing(s, i);
      StillDistinct(s.slots, i, FREE_SLOT);
      ReleaseIs(s, i);
    }
  }

  ghost predicate SettledFrom(s: State, i: nat) {
    forall j | i <= j < |s.slots| :: Settled(s.kernel, s.slots[j])
  }

  lemma {:induction false} ReleaseFromKeeps(s: State, i: nat)
    requires Owns(s) && SettledFrom(s, i) && i <= |s.slots|
    ensures var s' := ReleaseFrom(s, i);
      && Owns(s')
      && (forall j | i <= j < |s'.slots| :: s'.slots[j].phase.Unused?)
      && (forall j | 0 <= j < i :: s'.slots[j] == s.slots[j])
    decreases |s.slots| - i
  {
    if i < |s.slots| {
      ReleaseKeeps(s, i);
      ReleaseFromKeeps(Release(s, i), i + 1);
    }
  }

  // ---------- the other calls ----------

  lemma {:induction false} ConfigKeeps(s: State, c: Call)
    requires Owns(s) && c.Config? && Enabled(s, c)
    ensures Owns(Step(s, c))
  {
    var i := FirstUnused(s.slots, 0);
    if Ok(s) && c.kernelValid && c.kernel < PoolAllocator.KERNELS && i < |s.slots| && c.created.Gives? {
      NewSlotKeeps(s, i, c.created.value);
    }
  }

  function WithSyncobj(s: State, i: nat, o: int): State
    requires i < |s.slots|
  {
    s.(slots := s.slots[i := Slot(Configured, o, NONE, s.slots[i].status, NONE)],
       kernel := s.kernel.(syncobjs := s.kernel.syncobjs[o := NONE]))
  }

  lemma {:induction false} NewSlotKeeps(s: State, i: nat, o: int)
    requires Owns(s) && i < |s.slots| && s.slots[i].phase.Unused? && o > 0 && o !in s.kernel.syncobjs
    ensures Owns(WithSyncobj(s, i, o))
  {
    var s' := WithSyncobj(s, i, o);
    forall j | 0 <= j < |s'.slots|
      ensures SlotOk(s'.kernel, s'.slots[j])
    {
      assert SlotOk(s.kernel, s.slots[j]);
    }
    KeepsOwners(s.kernel, s.slots, s.kernel, i, s'.slots[i]);
    forall p | p in s'.kernel.syncobjs
      ensures exists j :: 0 <= j < |s'.slots| && HasSyncobj(s'.slots[j], p)
    {
      if p == o {
        assert HasSyncobj(s'.slots[i], p);
      }
    }
  }

  /** Slot i takes over what it owned, or owned nothing: nothing of the rest is lost. */
  lemma {:induction false} KeepsOwners(k: Kernel, slots: seq<Slot>, k': Kernel, i: nat, slot: Slot)
    requires NothingLost(k, slots) && i < |slots|
    requires k'.jobs == k.jobs && k'.syncobjs == k.syncobjs && k'.fds == k.fds
    requires !slots[i].phase.Unused? ==> !slot.phase.Unused? && slot.syncobj == slots[i].syncobj
    requires HasJob(slots[i]) ==> HasJob(slot) && slot.fd == slots[i].fd && slot.job == slots[i].job
    requires slots[i].phase.Submitted? && InDriver(k, slots[i].job) ==> slot.phase.Submitted?
    ensures NothingLost(k', slots[i := slot])
  {
    var slots' := slots[i := slot];
    forall o | o in k.syncobjs
      ensures exists j :: 0 <= j < |slots'| && HasSyncobj(slots'[j], o)
    {
      var j :| 0 <= j < |slots| && HasSyncobj(slots[j], o);
      assert HasSyncobj(slots'[j], o);
    }
    forall fd | fd in k.fds && k.fds[fd].Fence?
      ensures exists j :: 0 <= j < |slots'| && HasFd(slots'[j], fd)
    {
      var j :| 0 <= j < |slots| && HasFd(slots[j], fd);
      assert HasFd(slots'[j], fd);
    }
    forall id | 0 <= id < |k.jobs| && !k.jobs[id]
      ensures exists j :: 0 <= j < |slots'| && slots'[j].phase.Submitted? && slots'[j].job == id
    {
      var j :| 0 <= j < |slots| && slots[j].phase.Submitted? && slots[j].job == id;
      assert slots'[j].phase.Submitted? && slots'[j].job == id;
    }
  }

  lemma {:induction false} DoneKeeps(s: State, i: nat, status: int)
    requires Owns(s) && i < |s.slots| && s.slots[i].phase.Submitted?
    requires s.slots[i].fd != NONE && !InDriver(s.kernel, s.slots[i].job)
    ensures Owns(s.(slots := s.slots[i := s.slots[i].(phase := Done, status := status)]))
  {
    var slot := s.slots[i].(phase := Done, status := status);
    assert SlotOk(s.kernel, s.slots[i]);
    KeepsOwners(s.kernel, s.slots, s.kernel, i, slot);
    StillDistinct(s.slots, i, slot);
    assert SlotsOk(s.kernel, s.slots[i := slot]);
  }

  lemma {:induction false} UpdateKeeps(s: State, c: Call)
    requires Owns(s) && c.Update? && Enabled(s, c)
    ensures Owns(Step(s, c))
  {
    if Ok(s) && Names(s, c.job, {Submitted, Done}) {
      var i := c.job.index;
      assert SlotOk(s.kernel, s.slots[i]);
      if s.slots[i].phase.Submitted? && c.answer.Ready? && c.answer.info.Gives? {
        DoneKeeps(s, i, c.answer.info.value);
      }
    }
  }

  // ---------- submit ----------

  /** The export of the new fence fails after the old one was closed: lib/strela.c keeps the old number. */
  predicate StaleExport(s: State, c: Call) {
    c.Submit? && Ok(s) && Names(s, c.job, {Done}) && c.accepted.Gives? && c.exported.Fails?
  }

  /** The state after an accepted submit, on a slot that owns what it should. */
  function Resubmitted(s: State, i: nat, exported: Answer): State
    requires i < |s.slots|
  {
    var slot, k, id := s.slots[i], s.kernel, |s.kernel.jobs|;
    var fds := if slot.phase.Done? then k.fds - {slot.fd} else k.fds;
    var jobs, syncobjs := k.jobs + [false], k.syncobjs[slot.syncobj := id];
    match exported
    case Fails(e) =>
      s.(slots := s.slots[i := slot.(phase := Submitted, job := id)], errnum := e, kernel := Kernel(jobs, syncobjs, fds))
    case Gives(fd) =>
      s.(slots := s.slots[i := slot.(phase := Submitted, job := id, fd := fd)],
         kernel := Kernel(jobs, syncobjs, fds[fd := Fence(id)]))
  }

  ghost predicate Submits(s: State, c: Call) {
    c.Submit? && Ok(s) && Names(s, c.job, {Configured, Done}) && c.accepted.Gives?
  }

  lemma {:induction false} SubmitIs(s: State, c: Call)
    requires Owns(s) && Submits(s, c)
    ensures Step(s, c) == Resubmitted(s, c.job.index, c.exported)
  {
    assert SlotOk(s.kernel, s.slots[c.job.index]);
  }

  lemma {:induction false} SubmitKeepsSlots(s: State, i: nat, exported: Answer, j: nat)
    requires Owns(s) && i < |s.slots| && j < |s.slots| && s.slots[i].phase in {Configured, Done}
    requires exported.Gives? ==> FreshFd(s.kernel, s.slots[i], exported.value)
    requires exported.Fails? ==> s.slots[i].phase.Configured?
    ensures SlotOk(Resubmitted(s, i, exported).kernel, Resubmitted(s, i, exported).slots[j])
  {
    assert SlotOk(s.kernel, s.slots[i]) && SlotOk(s.kernel, s.slots[j]);
  }

  lemma {:induction false} SubmitLosesNothing(s: State, i: nat, exported: Answer)
    requires Owns(s) && i < |s.slots| && s.slots[i].phase in {Configured, Done}
    requires exported.Gives? ==> FreshFd(s.kernel, s.slots[i], exported.value)
    ensures NothingLost(Resubmitted(s, i, exported).kernel, Resubmitted(s, i, exported).slots)
  {
    var s' := Resubmitted(s, i, exported);
    var k, slots, k', slots' := s.kernel, s.slots, s'.kernel, s'.slots;
    assert SlotOk(k, slots[i]);
    forall o | o in k'.syncobjs
      ensures exists j :: 0 <= j < |slots'| && HasSyncobj(slots'[j], o)
    {
      var j :| 0 <= j < |slots| && HasSyncobj(slots[j], o);
      assert HasSyncobj(slots'[j], o);
    }
    forall fd | fd in k'.fds && k'.fds[fd].Fence?
      ensures exists j :: 0 <= j < |slots'| && HasFd(slots'[j], fd)
    {
      if exported.Gives? && fd == exported.value {
        assert HasFd(slots'[i], fd);
      } else {
        var j :| 0 <= j < |slots| && HasFd(slots[j], fd);
        assert HasFd(slots'[j], fd);
      }
    }
    forall id | 0 <= id < |k'.jobs| && !k'.jobs[id]
      ensures exists j :: 0 <= j < |slots'| && slots'[j].phase.Submitted? && slots'[j].job == id
    {
      if id == |k.jobs| {
        assert slots'[i].phase.Submitted? && slots'[i].job == id;
      } else {
        var j :| 0 <= j < |slots| && slots[j].phase.Submitted? && slots[j].job == id;
        assert slots'[j] == slots[j];
      }
    }
  }

  lemma {:induction false} SubmitKeeps(s: State, c: Call)
    requires Owns(s) && c.Submit? && Enabled(s, c) && !StaleExport(s, c)
    ensures Owns(Step(s, c))
  {
    if Submits(s, c) {
      var i := c.job.index;
      SubmitIs(s, c);
      SubmitLosesNothing(s, i, c.exported);
      var s' := Resubmitted(s, i, c.exported);
      forall j | 0 <= j < |s'.slots|
        ensures SlotOk(s'.kernel, s'.slots[j])
      {
        SubmitKeepsSlots(s, i, c.exported, j);
      }
      SubmitKeepsDistinct(s, i, c.exported);
    }
  }

  lemma {:induction false} SubmitKeepsDistinct(s: State, i: nat, exported: Answer)
    requires Owns(s) && i < |s.slots| && !s.slots[i].phase.Unused?
    ensures Distinct(Resubmitted(s, i, exported).slots)
  {
    forall j | 0 <= j < |s.slots| && HasJob(s.slots[j])
      ensures s.slots[j].job < |s.kernel.jobs|
    {
      assert SlotOk(s.kernel, s.slots[j]);
    }
    assert forall j | 0 <= j < |s.slots| :: SlotOk(s.kernel, s.slots[j]);
  }

  /** A stale export breaks the slot: it keeps the number of a descriptor that is closed. */
  lemma {:induction false} StaleBreaks(s: State, c: Call)
    requires Owns(s) && StaleExport(s, c)
    ensures !Owns(Step(s, c))
    ensures var slot := Step(s, c).slots[c.job.index]; slot.fd != NONE && slot.fd !in Step(s, c).kernel.fds
  {
    assert SlotOk(s.kernel, s.slots[c.job.index]);
    SubmitIs(s, c);
    assert !SlotOk(Step(s, c).kernel, Step(s, c).slots[c.job.index]);
  }

  // ---------- the environment ----------

  lemma {:induction false} JobDoneKeeps(s: State, id: nat)
    requires Owns(s) && id < |s.kernel.jobs|
    ensures Owns(Step(s, JobDone(id)))
  {
    var s' := Step(s, JobDone(id));
    forall j | 0 <= j < |s'.slots|
      ensures SlotOk(s'.kernel, s'.slots[j])
    {
      assert SlotOk(s.kernel, s.slots[j]);
    }
  }

  lemma {:induction false} FdsKeep(s: State, c: Call)
    requires Owns(s) && Enabled(s, c) && (c.Opens? || c.Closes?)
    ensures Owns(Step(s, c))
  {
    var s' := Step(s, c);
    forall j | 0 <= j < |s'.slots|
      ensures SlotOk(s'.kernel, s'.slots[j])
    {
      assert SlotOk(s.kernel, s.slots[j]);
    }
  }

  lemma {:induction false} FreesKeep(s: State, c: Call)
    requires Owns(s) && Enabled(s, c) && (c.Free? || c.FreeAll?)
    ensures Owns(Step(s, c))
  {
    if Ok(s) {
      forall i | 0 <= i < |s.slots|
        ensures FinishReturns(s.kernel, s.slots[i]) <==> Settled(s.kernel, s.slots[i])
      {
        FinishMeansSettled(s.kernel, s.slots[i]);
      }
      if c.FreeAll? {
        ReleaseFromKeeps(s, 0);
      } else if Names(s, c.job, {Unused, Configured, Submitted, Done}) {
        ReleaseKeeps(s, c.job.index);
      }
    }
  }

  // ---------- steps and runs ----------

  /** A call keeps ownership intact if and only if it is not a resubmit whose export fails. */
  lemma {:induction false} StepKeepsIff(s: State, c: Call)
    requires Owns(s) && Enabled(s, c)
    ensures Owns(Step(s, c)) <==> !StaleExport(s, c)
  {
    match c
    case ResetErr =>
    case Config(_, _, _) => ConfigKeeps(s, c);
    case Submit(_, _, _) =>
      if StaleExport(s, c) {
        StaleBreaks(s, c);
      } else {
        SubmitKeeps(s, c);
      }
    case Update(_, _) => UpdateKeeps(s, c);
    case Free(_) => FreesKeep(s, c);
    case FreeAll => FreesKeep(s, c);
    case JobDone(id) => JobDoneKeeps(s, id);
    case Opens(_) => FdsKeep(s, c);
    case Closes(_) => FdsKeep(s, c);
  }

  ghost predicate NeverStale(s: State, calls: seq<Call>)
    decreases calls
  {
    calls == [] || (!StaleExport(s, calls[0]) && NeverStale(Step(s, calls[0]), calls[1..]))
  }

  /** Over every run without one, each slot owns what its phase says and nothing is lost or closed twice. */
  lemma {:induction false} RunKeeps(s: State, calls: seq<Call>)
    requires Owns(s) && AllEnabled(s, calls) && NeverStale(s, calls)
    ensures Owns(Run(s, calls))
    decreases calls
  {
    if calls != [] {
      StepKeepsIff(s, calls[0]);
      RunKeeps(Step(s, calls[0]), calls[1..]);
    }
  }

  // ---------- what is given back ----------

  ghost predicate NoFenceOpen(k: Kernel) { forall fd | fd in k.fds :: k.fds[fd].Other? }

  /** strela_job_free_all() gives everything back, and waits for every job. */
  lemma {:induction false} FreeAllLeavesNothing(s: State)
    requires Owns(s) && Ok(s) && Enabled(s, FreeAll)
    ensures var k := Step(s, FreeAll).kernel;
      k.syncobjs == map[] && NoFenceOpen(k) && forall id :: !InDriver(k, id)
  {
    forall i | 0 <= i < |s.slots|
      ensures Settled(s.kernel, s.slots[i])
    {
      FinishMeansSettled(s.kernel, s.slots[i]);
    }
    ReleaseFromKeeps(s, 0);
    NothingUsed(ReleaseFrom(s, 0));
  }

  lemma {:induction false} NothingUsed(s: State)
    requires Owns(s) && forall i | 0 <= i < |s.slots| :: s.slots[i].phase.Unused?
    ensures s.kernel.syncobjs == map[] && NoFenceOpen(s.kernel) && forall id :: !InDriver(s.kernel, id)
  {
    assert forall o :: o !in s.kernel.syncobjs;
  }

  /** strela_dev_deinit(): closing the device takes its sync objects along, but not exported descriptors. */
  function Deinit(s: State): State {
    var s1 := Step(s, FreeAll);
    State(false, OK, seq(|s.slots|, _ => Slot(Unused, 0, 0, 0, NONE)),
      if s.initialized then s1.kernel.(syncobjs := map[]) else s1.kernel, s1.bad)
  }

  /** Tearing a device down leaks no descriptor exactly when it has no error, or no slot holds one. */
  lemma {:induction false} DeinitLeaksNothingIff(s: State)
    requires Owns(s) && s.initialized && Enabled(s, FreeAll)
    ensures NoFenceOpen(Deinit(s).kernel) <==>
      Ok(s) || forall i | 0 <= i < |s.slots| :: HasJob(s.slots[i]) ==> s.slots[i].fd == NONE
  {
    if Ok(s) {
      FreeAllLeavesNothing(s);
    } else {
      forall i | 0 <= i < |s.slots| && HasJob(s.slots[i]) && s.slots[i].fd != NONE
        ensures s.slots[i].fd in s.kernel.fds && s.kernel.fds[s.slots[i].fd].Fence?
      {
        assert SlotOk(s.kernel, s.slots[i]);
      }
    }
  }

  // ---------- the run that goes wrong ----------

  const FIRST := Handle(true, 0)

  /** Submit and wait, submit again with a failing export, then free; the process opened a file in between. */
  function StaleRun(): seq<Call> {
    [ Config(true, 0, Gives(1)), Submit(FIRST, Gives(0), Gives(3)), JobDone(0), Update(FIRST, Ready(Gives(1))),
      Submit(FIRST, Gives(1), Fails(24)), Opens(3), ResetErr, Free(FIRST) ]
  }

  lemma {:induction false} RunSplit(s: State, c: Call, rest: seq<Call>)
    ensures Run(s, [c] + rest) == Run(Step(s, c), rest)
    ensures AllEnabled(s, [c] + rest) <==> Enabled(s, c) && AllEnabled(Step(s, c), rest)
  {
    assert ([c] + rest)[1..] == rest;
  }

  /** The state of the run after the failing export and the reset. */
  function Broken(s: State): State
    requires |s.slots| == JOBS_MAX
  {
    State(true, OK, s.slots[0 := Slot(Submitted, 1, 3, 1, 1)], Kernel([true, false], map[1 := 1], map[3 := Other]), {})
  }

  lemma {:induction false} FirstHalf(s: State)
    requires s == Init(map[])
    ensures AllEnabled(s, StaleRun()[..4])
    ensures Run(s, StaleRun()[..4]) ==
      State(true, OK, s.slots[0 := Slot(Done, 1, 3, 1, 0)], Kernel([true], map[1 := 0], map[3 := Fence(0)]), {})
  {
    var r := StaleRun();
    assert r[..4] == [r[0]] + ([r[1]] + ([r[2]] + ([r[3]] + [])));
    var s1 := Step(s, r[0]);
    var s2 := Step(s1, r[1]);
    var s3 := Step(s2, r[2]);
    assert s1 == State(true, OK, s.slots[0 := Slot(Configured, 1, NONE, 0, NONE)], Kernel([], map[1 := NONE], map[]), {});
    assert s2 == State(true, OK, s.slots[0 := Slot(Submitted, 1, 3, 0, 0)], Kernel([false], map[1 := 0], map[3 := Fence(0)]), {});
    assert s3 == State(true, OK, s.slots[0 := Slot(Submitted, 1, 3, 0, 0)], Kernel([true], map[1 := 0], map[3 := Fence(0)]), {});
    RunSplit(s, r[0], [r[1]] + ([r[2]] + ([r[3]] + [])));
    RunSplit(s1, r[1], [r[2]] + ([r[3]] + []));
    RunSplit(s2, r[2], [r[3]] + []);
    RunSplit(s3, r[3], []);
  }

  lemma {:induction false} SecondHalf(s: State, s4: State)
    requires s == Init(map[])
    requires s4 == State(true, OK, s.slots[0 := Slot(Done, 1, 3, 1, 0)], Kernel([true], map[1 := 0], map[3 := Fence(0)]), {})
    ensures AllEnabled(s4, StaleRun()[4..])
    ensures Run(s4, StaleRun()[4..]) == Release(Broken(s), 0)
  {
    var r := StaleRun();
    assert r[4..] == [r[4]] + ([r[5]] + ([r[6]] + ([r[7]] + [])));
    var s5 := Step(s4, r[4]);
    var s6 := Step(s5, r[5]);
    var s7 := Step(s6, r[6]);
    assert s5 == State(true, 24, s.slots[0 := Slot(Submitted, 1, 3, 1, 1)], Kernel([true, false], map[1 := 1], map[]), {});
    assert s6 == State(true, 24, s.slots[0 := Slot(Submitted, 1, 3, 1, 1)], Kernel([true, false], map[1 := 1], map[3 := Other]), {});
    assert s7 == Broken(s);
    RunSplit(s4, r[4], [r[5]] + ([r[6]] + ([r[7]] + [])));
    RunSplit(s5, r[5], [r[6]] + ([r[7]] + []));
    RunSplit(s6, r[6], [r[7]] + []);
    RunSplit(s7, r[7], []);
  }

  lemma {:induction false} RunAppend(s: State, a: seq<Call>, b: seq<Call>)
    ensures Run(s, a + b) == Run(Run(s, a), b)
    ensures AllEnabled(s, a + b) <==> AllEnabled(s, a) && AllEnabled(Run(s, a), b)
    decreases a
  {
    if a == [] {
      assert a + b == b;
    } else {
      assert (a + b)[1..] == a[1..] + b;
      RunAppend(Step(s, a[0]), a[1..], b);
    }
  }

  /** The stale number reaches close(): a stranger's descriptor is closed, and a running job is let go. */
  lemma {:induction false} StaleExportClosesAStranger()
    ensures AllEnabled(Init(map[]), StaleRun())
    ensures var s := Run(Init(map[]), StaleRun()); ClosedOther in s.bad && LeftInDriver in s.bad && 3 !in s.kernel.fds
  {
    var s, r := Init(map[]), StaleRun();
    FirstHalf(s);
    SecondHalf(s, Run(s, r[..4]));
    assert r == r[..4] + r[4..];
    RunAppend(s, r[..4], r[4..]);
  }

  /** A job is submitted and done, then a call fails. */
  function LeakRun(): seq<Call> {
    StaleRun()[..4] + [Config(false, 0, Gives(2))]
  }

  lemma {:induction false} LeakRunIs(s: State)
    requires s == Init(map[])
    ensures AllEnabled(s, LeakRun())
    ensures Run(s, LeakRun()) ==
      State(true, BAD_ARG, s.slots[0 := Slot(Done, 1, 3, 1, 0)], Kernel([true], map[1 := 0], map[3 := Fence(0)]), {})
  {
    FirstHalf(s);
    var last, mid := Config(false, 0, Gives(2)), Run(s, StaleRun()[..4]);
    RunAppend(s, StaleRun()[..4], [last]);
    assert [last] == [last] + [];
    RunSplit(mid, last, []);
  }

  /** Tearing the device down then leaves descriptor 3 open, with nobody to close it. */
  lemma {:induction false} DeinitLeaks()
    ensures AllEnabled(Init(map[]), LeakRun())
    ensures var s := Run(Init(map[]), LeakRun());
      Enabled(s, FreeAll) && 3 in Deinit(s).kernel.fds && !NoFenceOpen(Deinit(s).kernel)
      && !Deinit(s).initialized && forall i | 0 <= i < |Deinit(s).slots| :: Deinit(s).slots[i].phase.Unused?
  {
    LeakRunIs(Init(map[]));
  }
}
