/**
 struct strela_dev and the calls of lib/strela.c that change it, over the allocators in place.
 Every method performs one step of the Library state; `answer` parameters are what the system
 calls it makes return.
 */
module StrelaDevice {
  import opened Bits
  import opened FreeListSpec
  import opened FreeListAllocator
  import opened FreeListMemory
  import FreeListRuns
  import PoolAllocator
  import Buffers
  import BufferMemory
  import opened JobSlots
  import JobSlotsProofs
  import Library

  const PAGE: nat := 4096
  const KERNEL_MEMORY: nat := 40960  // STRELA_KERNEL_MEMORY_SIZE

  class Device {
    var initialized: bool
    var errnum: int
    var jobs: seq<Slot>
    const kernels: PoolAllocator.Pool
    const buffers: FreeList
    // the kernel's side of the slots
    ghost var kernel: Kernel
    ghost var bad: set<Violation>

    /**
     strela_dev_init() from where both objects are mapped: the pool on the kernel memory, the free
     list on the tensor memory, no slot used. Mappings start at a page.
     */
    constructor (word: nat, maxAlign: nat, limit: nat, kernelBase: nat, tensorBase: nat, ghost fds: map<int, Holder>)
      requires 1 <= word <= PoolAllocator.KERNEL_BYTES && IsPowerOfTwo(maxAlign) && maxAlign % word == 0
      requires Buffers.SizeType(limit)
      requires kernelBase % PAGE == 0 && kernelBase + KERNEL_MEMORY <= limit
      requires tensorBase % PAGE == 0 && tensorBase % maxAlign == 0 && tensorBase + Buffers.TENSOR_BYTES <= limit
      requires NONE !in fds && forall fd | fd in fds :: fds[fd].Other?
      ensures Valid() && fresh(kernels) && fresh(buffers) && fresh(kernels.mem) && fresh(buffers.mem)
      ensures buffers.c == Area(word, maxAlign, limit, tensorBase, Buffers.TENSOR_BYTES)
      ensures View() == Library.Lib(JobSlots.Init(fds), FreeListRuns.Initial(buffers.c), PoolAllocator.Fresh(PoolAllocator.KERNELS))
      ensures Library.LibInv(buffers.c, View())
    {
      PageFacts(limit, kernelBase, tensorBase);
      kernels := new PoolAllocator.Pool(word, limit, kernelBase, KERNEL_MEMORY, PoolAllocator.KERNEL_BYTES, Buffers.WORD);
      buffers := new FreeList(word, maxAlign, limit, tensorBase, Buffers.TENSOR_BYTES);
      initialized, errnum := true, OK;
      jobs := seq(JOBS_MAX, _ => Slot(Unused, 0, 0, 0, NONE));
      kernel, bad := Kernel([], map[], fds), {};
      JobSlotsProofs.InitOwns(fds);
    }

    ghost predicate Valid()
      reads this, kernels, kernels.mem, buffers, buffers.mem
    {
      && kernels.Valid() && buffers.Valid() && kernels.mem != buffers.mem
      && kernels.count == PoolAllocator.KERNELS && kernels.chunkSize == PoolAllocator.KERNEL_BYTES
      && Buffers.TensorArea(buffers.c) && |jobs| == JOBS_MAX
    }

    ghost function Dev(): State
      reads this
    {
      State(initialized, errnum, jobs, kernel, bad)
    }

    ghost function View(): Library.Lib
      reads this, kernels, buffers
    {
      Library.Lib(Dev(), buffers.State(), kernels.State())
    }

    /** The library with the memory of the tensor area. */
    ghost function World(): BufferMemory.World
      reads this, kernels, buffers, buffers.mem
    {
      BufferMemory.World(View(), buffers.mem[..], buffers.head)
    }

    /** strela_dev_ok(). */
    predicate DevOk()
      reads this
    {
      initialized && errnum == OK
    }

    // ---------- jobs ----------

    method ResetErr()
      modifies `errnum
      ensures Dev() == Step(old(Dev()), JobSlots.ResetErr)
      ensures errnum == if initialized then OK else old(errnum)
    {
      if initialized {
        errnum := OK;
      }
    }

    /** close(). */
    ghost method KernelClose(fd: int, owner: int)
      modifies `kernel, `bad
      ensures Dev() == CloseFd(old(Dev()), fd, owner)
    {
      if fd !in kernel.fds {
        bad := bad + {ClosedTwice};
      } else if kernel.fds[fd] != Fence(owner) {
        bad := bad + {ClosedOther};
      }
      kernel := kernel.(fds := kernel.fds - {fd});
    }

    /** DRM_IOCTL_SYNCOBJ_DESTROY. */
    ghost method KernelDestroy(syncobj: int)
      modifies `kernel, `bad
      ensures Dev() == Destroy(old(Dev()), syncobj)
    {
      if syncobj !in kernel.syncobjs {
        bad := bad + {DestroyedTwice};
      }
      kernel := kernel.(syncobjs := kernel.syncobjs - {syncobj});
    }

    /** strela_job_slot_release(); its wait in strela_job_slot_finish() has returned. */
    method SlotRelease(i: nat)
      requires i < |jobs| && FinishReturns(kernel, jobs[i])
      modifies `jobs, `kernel, `bad
      ensures Dev() == Release(old(Dev()), i)
    {
      if jobs[i].phase.Submitted? {
        jobs := jobs[i := jobs[i].(phase := Done)];
      }
      if !jobs[i].phase.Unused? {
        ghost var running := InDriver(kernel, jobs[i].job);
        if jobs[i].fd != NONE {
          KernelClose(jobs[i].fd, jobs[i].job);
        }
        if jobs[i].syncobj != 0 {
          KernelDestroy(jobs[i].syncobj);
        }
        if running {
          bad := bad + {LeftInDriver};
        }
        jobs := jobs[i := FREE_SLOT];
      }
    }

    /** strela_job_free_all(); every wait returns. */
    method JobFreeAll()
      requires JobSlotsProofs.Owns(Dev()) && Enabled(Dev(), FreeAll)
      modifies `jobs, `kernel, `bad
      ensures Dev() == Step(old(Dev()), FreeAll) && JobSlotsProofs.Owns(Dev())
      ensures old(DevOk()) ==> kernel.syncobjs == map[] && JobSlotsProofs.NoFenceOpen(kernel)
      ensures old(DevOk()) ==> forall i | 0 <= i < |jobs| :: jobs[i].phase.Unused?
      ensures !old(DevOk()) ==> Dev() == old(Dev())
    {
      if DevOk() {
        JobSlotsProofs.FreeAllLeavesNothing(Dev());
        JobSlotsProofs.StepKeepsIff(Dev(), FreeAll);
        ghost var s0 := Dev();
        AllSettled(Dev());
        var i := 0;
        while i < |jobs|
          invariant 0 <= i <= |jobs| && DevOk()
          invariant JobSlotsProofs.Owns(Dev()) && JobSlotsProofs.SettledFrom(Dev(), i)
          invariant ReleaseFrom(Dev(), i) == ReleaseFrom(s0, 0)
        {
          JobSlotsProofs.ReleaseKeeps(Dev(), i);
          JobSlotsProofs.FinishMeansSettled(kernel, jobs[i]);
          SlotRelease(i);
          i := i + 1;
        }
      }
    }

    /** strela_job_config(); `created` answers DRM_IOCTL_SYNCOBJ_CREATE. */
    method JobConfig(kernelValid: bool, handle: nat, created: Answer) returns (res: Handle)
      requires |jobs| == JOBS_MAX && Enabled(Dev(), Config(kernelValid, handle, created))
      modifies `errnum, `jobs, `kernel, `bad
      ensures Dev() == Step(old(Dev()), Config(kernelValid, handle, created))
      ensures res.valid <==>
        old(DevOk()) && kernelValid && handle < 128 && created.Gives? && exists i :: 0 <= i < JOBS_MAX && old(jobs)[i].phase.Unused?
      ensures res.valid ==> res.index < JOBS_MAX && old(jobs)[res.index].phase.Unused?
      ensures res.valid ==> forall i | 0 <= i < res.index :: !old(jobs)[i].phase.Unused?
      ensures res.valid ==> errnum == OK && kernel == old(kernel).(syncobjs := old(kernel).syncobjs[created.value := NONE])
      ensures res.valid ==> jobs == old(jobs)[res.index := Slot(Configured, created.value, NONE, old(jobs)[res.index].status, NONE)]
      ensures !res.valid ==> jobs == old(jobs) && kernel == old(kernel) && !DevOk()
      ensures old(DevOk()) && (!kernelValid || handle >= 128) ==> errnum == BAD_ARG
      ensures old(DevOk()) && kernelValid && handle < 128 && created.Fails? ==> errnum == NO_MEM || errnum == created.errno
      ensures !old(DevOk()) ==> Dev() == old(Dev())
      ensures old(DevOk()) && kernelValid && handle < 128 && (forall i | 0 <= i < JOBS_MAX :: !old(jobs)[i].phase.Unused?) ==> errnum == NO_MEM
    {
      res := Handle(false, 0);
      if DevOk() && (!kernelValid || handle >= PoolAllocator.KERNELS) {
        errnum := BAD_ARG;
      }
      if !DevOk() {
        return;
      }
      var i := 0;
      while i < |jobs| && !jobs[i].phase.Unused?
        invariant 0 <= i <= |jobs|
        invariant FirstUnused(jobs, i) == FirstUnused(jobs, 0)
      {
        i := i + 1;
      }
      if i == |jobs| {
        errnum := NO_MEM;
        return;
      }
      match created {
        case Fails(e) =>
          errnum := e;
          SlotRelease(i);
        case Gives(syncobj) =>
          kernel := kernel.(syncobjs := kernel.syncobjs[syncobj := NONE]);
          jobs := jobs[i := Slot(Configured, syncobj, NONE, jobs[i].status, NONE)];
          res := Handle(true, i);
      }
    }

    /** strela_job_slot_get(): NONE stands for a null slot. */
    method SlotGet(job: Handle, phases: set<Phase>) returns (i: int)
      modifies `errnum
      ensures var s := old(Dev());
        if Ok(s) && Names(s, job, phases) then Dev() == s && i == job.index && DevOk()
        else i == NONE && !DevOk() && Dev() == if Ok(s) then Fail(s, BAD_ARG) else s
    {
      i := NONE;
      if DevOk() {
        if !job.valid || job.index >= |jobs| || jobs[job.index].phase !in phases {
          errnum := BAD_ARG;
        } else {
          i := job.index;
        }
      }
    }

    /** strela_job_free(). */
    method JobFree(job: Handle)
      requires Enabled(Dev(), Call.Free(job))
      modifies `errnum, `jobs, `kernel, `bad
      ensures Dev() == Step(old(Dev()), Call.Free(job))
      ensures old(DevOk()) && (!job.valid || job.index >= |old(jobs)|) ==> Dev() == old(Dev()).(errnum := BAD_ARG)
      ensures old(DevOk()) && job.valid && job.index < |old(jobs)| ==>
        DevOk() && jobs[job.index].phase.Unused? && forall i | 0 <= i < |jobs| && i != job.index :: jobs[i] == old(jobs)[i]
      ensures !old(DevOk()) ==> Dev() == old(Dev())
    {
      var i := SlotGet(job, {Unused, Configured, Submitted, Done});
      if DevOk() {
        SlotRelease(i);
      }
    }

    /** strela_job_submit() once the driver has accepted job `id`; `exported` answers the export of its fence. */
    method FinishSubmit(i: nat, id: nat, exported: Answer)
      requires i < |jobs|
      modifies `errnum, `jobs, `kernel, `bad
      ensures Dev() == AfterAccept(old(Dev()), i, id, exported)
    {
      if jobs[i].phase.Done? {
        KernelClose(jobs[i].fd, jobs[i].job);
      }
      jobs := jobs[i := jobs[i].(phase := Submitted, job := id)];
      match exported {
        case Fails(e) =>
          errnum := e;
        case Gives(fd) =>
          kernel := kernel.(fds := kernel.fds[fd := Fence(id)]);
          jobs := jobs[i := jobs[i].(fd := fd)];
      }
    }

    /** strela_job_submit(); `accepted` answers DRM_IOCTL_STRELA_SUBMIT and names the job. */
    method JobSubmit(job: Handle, accepted: Answer, exported: Answer) returns (ok: bool)
      requires Enabled(Dev(), Submit(job, accepted, exported))
      modifies `errnum, `jobs, `kernel, `bad
      ensures Dev() == Step(old(Dev()), Submit(job, accepted, exported))
      ensures ok == DevOk()
      ensures ok <==> old(DevOk()) && CanSubmit(old(jobs), job) && accepted.Gives? && exported.Gives?
      ensures old(DevOk()) && CanSubmit(old(jobs), job) && accepted.Gives? ==>
        Enters(old(Dev()), Dev(), job.index, exported)
      ensures old(DevOk()) && CanSubmit(old(jobs), job) && accepted.Fails? ==> Dev() == old(Dev()).(errnum := accepted.errno)
      ensures old(DevOk()) && !CanSubmit(old(jobs), job) ==> Dev() == old(Dev()).(errnum := BAD_ARG)
      ensures !old(DevOk()) ==> Dev() == old(Dev())
    {
      var i := SlotGet(job, {Configured, Done});
      if DevOk() {
        match accepted {
          case Fails(e) =>
            errnum := e;
          case Gives(id) =>
            if InDriver(kernel, jobs[i].job) {
              bad := bad + {LeftInDriver};
            }
            kernel := kernel.(jobs := kernel.jobs + [false], syncobjs := kernel.syncobjs[jobs[i].syncobj := id]);
            FinishSubmit(i, id, exported);
        }
      }
      ok := DevOk();
    }

    /** strela_job_update() on a submitted or done slot. */
    method SlotUpdate(i: nat, answer: Poll)
      requires i < |jobs| && DevOk() && jobs[i].phase in {Submitted, Done}
      modifies `errnum, `jobs
      ensures Dev() == DoUpdate(old(Dev()), Handle(true, i), answer)
    {
      if !jobs[i].phase.Done? {
        match answer {
          case Expired =>
          case PollFails(e) =>
            if e != EINTR {
              errnum := e;
            }
          case Ready(Fails(e)) =>
            errnum := e;
          case Ready(Gives(status)) =>
            jobs := jobs[i := jobs[i].(phase := Done, status := status)];
        }
      }
    }

    /** strela_job_poll(): OK is only reported for a job that is out of the driver. */
    method JobPoll(job: Handle, answer: Poll) returns (state: JobState)
      requires Enabled(Dev(), Update(job, answer)) && JobSlotsProofs.Owns(Dev())
      modifies `errnum, `jobs
      ensures Dev() == Step(old(Dev()), Update(job, answer)) && JobSlotsProofs.Owns(Dev())
      ensures state == Reports(old(DevOk()), old(jobs), job, answer)
      ensures Answered(old(Dev()), Dev(), job, answer)
      ensures state.JobOk? ==> job.index < |jobs| && jobs[job.index].phase.Done?
      ensures state.JobOk? ==> 0 <= jobs[job.index].job < |kernel.jobs| && !InDriver(kernel, jobs[job.index].job)
    {
      JobSlotsProofs.UpdateKeeps(Dev(), Update(job, answer));
      state := JobFailed;
      var i := SlotGet(job, {Submitted, Done});
      if DevOk() {
        SlotUpdate(i, answer);
        assert JobSlotsProofs.SlotOk(kernel, jobs[i]);
        if !jobs[i].phase.Done? {
          state := JobPending;
        } else if jobs[i].status > 0 {
          state := JobOk;
        }
      }
    }

    /** strela_job_wait(). */
    method JobWait(job: Handle, answer: Poll) returns (done: bool)
      requires Enabled(Dev(), Update(job, answer)) && JobSlotsProofs.Owns(Dev())
      modifies `errnum, `jobs
      ensures Dev() == Step(old(Dev()), Update(job, answer)) && JobSlotsProofs.Owns(Dev())
      ensures done <==> old(DevOk()) && CanWait(old(jobs), job) && EndsWait(old(jobs)[job.index], answer)
      ensures Answered(old(Dev()), Dev(), job, answer)
      ensures done ==> jobs[job.index].phase.Done? && !InDriver(kernel, jobs[job.index].job)
    {
      JobSlotsProofs.UpdateKeeps(Dev(), Update(job, answer));
      var i := SlotGet(job, {Submitted, Done});
      if DevOk() {
        SlotUpdate(i, answer);
        assert JobSlotsProofs.SlotOk(kernel, jobs[i]);
      }
      done := DevOk() && jobs[i].phase.Done?;
    }

    // ---------- kernels ----------

    /** strela_kernel_alloc(). */
    method KernelAlloc() returns (valid: bool, handle: nat)
      requires Valid()
      modifies this`errnum, kernels`head, kernels`free, kernels`live, kernels.mem
      ensures Valid() && View() == Library.Step(buffers.c, old(View()), Library.KernelAlloc)
      ensures valid <==> old(DevOk()) && old(kernels.free) != []
      ensures valid ==> handle < PoolAllocator.KERNELS && handle == old(kernels.free)[0] && handle !in old(kernels.live)
      ensures valid ==> kernels.free == old(kernels.free)[1..] && kernels.live == old(kernels.live) + {handle}
      ensures old(DevOk()) && !valid ==> errnum == NO_MEM && kernels.State() == old(kernels.State())
    {
      valid, handle := false, 0;
      if DevOk() {
        var ptr := kernels.Alloc();
        if ptr != NULL {
          PoolAllocator.HandlesAreExact(ptr, old(kernels.free)[0]);
          handle := PoolAllocator.HandleOf(ptr);
          valid := true;
        } else {
          errnum := NO_MEM;
        }
      }
    }

    /** strela_kernel_set(): the bitstream goes to the kernel's chunk, and that chunk to the device. */
    method KernelSet(valid: bool, handle: nat, data: seq<int>, answer: Answer) returns (sent: Buffers.Sync)
      requires Valid() && AnswerOk(answer) && |data| == PoolAllocator.KERNEL_BYTES
      requires valid && handle < PoolAllocator.KERNELS ==> handle in kernels.live
      modifies this`errnum, kernels.mem
      ensures Valid() && View() == Library.Step(buffers.c, old(View()), Library.KernelSet(valid, handle, answer))
      ensures var ptr, n := 320 * handle, kernels.mem.Length;
        if old(DevOk()) && valid && handle < 128
        then ptr + 320 <= n && kernels.mem[..] == BufferMemory.Overwrite(old(kernels.mem[..]), ptr, data) && sent == Buffers.Range(ptr, 320)
        else kernels.mem[..] == old(kernels.mem[..]) && !sent.Range?
      ensures errnum ==
        if !old(DevOk()) then old(errnum)
        else if !valid || handle >= 128 then BAD_ARG
        else if answer.Fails? then answer.errno else OK
    {
      sent := Buffers.Nothing;
      if DevOk() {
        if !valid || handle >= PoolAllocator.KERNELS {
          errnum := BAD_ARG;
        }
      }
      if DevOk() {
        WriteChunk(handle, data);
        sent := Buffers.Range(PoolAllocator.KernelAddress(handle), PoolAllocator.KERNEL_BYTES);
        if answer.Fails? {
          errnum := answer.errno;
        }
      }
    }

    /** memcpy() to the chunk of a live kernel. */
    method WriteChunk(handle: nat, data: seq<int>)
      requires Valid() && handle in kernels.live && |data| == PoolAllocator.KERNEL_BYTES
      modifies kernels.mem
      ensures Valid() && 320 * handle + 320 <= kernels.mem.Length
      ensures kernels.mem[..] == BufferMemory.Overwrite(old(kernels.mem[..]), 320 * handle, data)
    {
      var ptr := PoolAllocator.KernelAddress(handle);
      ghost var m := kernels.mem[..];
      kernels.ChunkInside(handle);
      kernels.AllInside(kernels.free);
      for i := 0 to |data|
        invariant kernels.mem[..] == m[..ptr] + data[..i] + m[ptr + i..]
      {
        kernels.mem[ptr + i] := data[i];
      }
      PoolAllocator.LinkedFrame(m, kernels.mem[..], kernels.free, kernels.chunkSize, handle);
    }

    /** strela_kernel_free(), which frees nothing: it only checks its argument. */
    method KernelFree(valid: bool, handle: nat)
      requires Valid()
      modifies this`errnum
      ensures View() == Library.Step(buffers.c, old(View()), Library.KernelFree(valid, handle))
      ensures errnum == if old(DevOk()) && (!valid || handle >= 128) then BAD_ARG else old(errnum)
    {
      if DevOk() {
        if !valid || handle >= PoolAllocator.KERNELS {
          errnum := BAD_ARG;
        }
      }
    }

    /** strela_kernel_free_all(). */
    method KernelFreeAll()
      requires Valid()
      modifies kernels`head, kernels`free, kernels`live, kernels.mem
      ensures Valid() && View() == Library.Step(buffers.c, old(View()), Library.KernelFreeAll)
      ensures kernels.State() == if DevOk() then PoolAllocator.Fresh(PoolAllocator.KERNELS) else old(kernels.State())
    {
      if DevOk() {
        kernels.FreeAll();
      }
    }

    // ---------- buffers ----------

    /** strela_buffer_alloc() once the size is accepted. */
    method AllocBlock(sizeWords: nat, sizeBytes: nat) returns (b: Buffers.Buffer)
      requires Valid() && errnum == OK
      requires sizeBytes == Buffers.SizeBytes(buffers.c.limit, sizeWords) && Representable(buffers.c, sizeBytes, Buffers.LINE)
      modifies this`errnum, buffers`used, buffers`head, buffers`tiles, buffers.mem
      ensures Valid()
      ensures buffers.State() == Granted(buffers.c, old(buffers.State()), sizeBytes, buffers.policy)
      ensures errnum == if buffers.State() == old(buffers.State()) then NO_MEM else OK
      ensures b.valid <==> errnum == OK
      ensures b.valid ==> NewlyBacked(buffers.c, old(buffers.State()), buffers.State(), sizeWords, b)
      ensures KeepsLive(old(buffers.tiles), NULL, old(buffers.mem[..]), buffers.mem[..])
    {
      b := Buffers.NO_BUFFER;
      ghost var h := buffers.State();
      var ptr := buffers.Alloc(sizeBytes, Buffers.LINE);
      AllocChangesIff(buffers.c, h, buffers.State(), ptr, sizeBytes, buffers.policy);
      if ptr != NULL {
        b := Buffers.HandleOf(ptr, sizeWords);
        Backed(buffers.c, h, buffers.State(), ptr, sizeWords);
      } else {
        errnum := NO_MEM;
      }
    }

    /** strela_buffer_alloc(): the handle is backed by a new block when its size did not wrap. */
    method BufferAlloc(sizeWords: nat) returns (b: Buffers.Buffer)
      requires Valid() && Library.Allowed(buffers.c, View(), Library.BufferAlloc(sizeWords, buffers.policy))
      modifies this`errnum, buffers`used, buffers`head, buffers`tiles, buffers.mem
      ensures Valid() && View() == Library.Step(buffers.c, old(View()), Library.BufferAlloc(sizeWords, buffers.policy))
      ensures BufferMemory.CallStep(buffers.c, old(World()), Library.BufferAlloc(sizeWords, buffers.policy), World())
      ensures !b.valid ==> buffers.State() == old(buffers.State())
      ensures old(DevOk()) && !b.valid ==>
        errnum == if Buffers.SizeAccepted(buffers.c.limit, sizeWords) then NO_MEM else BAD_ARG
      ensures b.valid <==> old(DevOk()) && DevOk()
      ensures b.valid ==> NewlyBacked(buffers.c, old(buffers.State()), buffers.State(), sizeWords, b)
    {
      b := Buffers.NO_BUFFER;
      if DevOk() {
        var sizeBytes := sizeWords * Buffers.WORD % buffers.c.limit;
        if sizeBytes >= sizeWords {
          b := AllocBlock(sizeWords, sizeBytes);
        } else {
          errnum := BAD_ARG;
        }
      }
      KeepsLiveIfSame(old(buffers.tiles), NULL, old(buffers.mem[..]), buffers.mem[..]);
    }

    /** strela_buffer_set_data(): memcpy() into the buffer. t is the block behind a valid handle. */
    method BufferSetData(b: Buffers.Buffer, data: seq<int>, ghost t: Tile)
      requires Valid()
      requires b.valid ==> Buffers.Backs(buffers.c, buffers.State(), t, b) && |data| == t.orig
      modifies this`errnum, buffers.mem
      ensures Valid() && View() == Library.Step(buffers.c, old(View()), Library.BufferCopy(b))
      ensures old(DevOk()) && b.valid ==> BufferMemory.WriteStep(buffers.c, old(World()), t, b, 0, data, World())
      ensures !(old(DevOk()) && b.valid) ==> buffers.mem[..] == old(buffers.mem[..])
      ensures errnum == if old(DevOk()) && !b.valid then BAD_ARG else old(errnum)
    {
      if DevOk() {
        if !b.valid {
          errnum := BAD_ARG;
        } else {
          ghost var w := World();
          BufferMemory.PayloadInTile(buffers.c, buffers.State(), t);
          Buffers.ToPtrIs(buffers.c.limit, b);
          Copy(Buffers.ToPtr(buffers.c.limit, b), data);
          BufferMemory.WriteKeeps(buffers.c, w, t, b, 0, data, World());
        }
      }
    }

    /** memcpy() to an address of the tensor area. */
    method Copy(ptr: nat, data: seq<int>)
      requires ptr + |data| <= buffers.mem.Length
      modifies buffers.mem
      ensures buffers.mem[..] == BufferMemory.Overwrite(old(buffers.mem[..]), ptr, data)
    {
      ghost var m := buffers.mem[..];
      for i := 0 to |data|
        invariant buffers.mem[..] == m[..ptr] + data[..i] + m[ptr + i..]
      {
        buffers.mem[ptr + i] := data[i];
      }
    }

    /** strela_buffer_get_data(): memcpy() out of the buffer. */
    method BufferGetData(b: Buffers.Buffer, ghost t: Tile) returns (data: seq<int>)
      requires Valid()
      requires b.valid ==> Buffers.Backs(buffers.c, buffers.State(), t, b)
      modifies this`errnum
      ensures Valid() && View() == Library.Step(buffers.c, old(View()), Library.BufferCopy(b))
      ensures old(DevOk()) && b.valid ==> t.ptr + t.orig <= buffers.mem.Length && data == buffers.mem[t.ptr..t.ptr + t.orig]
      ensures errnum == if old(DevOk()) && !b.valid then BAD_ARG else old(errnum)
    {
      data := [];
      if DevOk() {
        if !b.valid {
          errnum := BAD_ARG;
        } else {
          BufferMemory.PayloadInTile(buffers.c, buffers.State(), t);
          Buffers.ToPtrIs(buffers.c.limit, b);
          var ptr := Buffers.ToPtr(buffers.c.limit, b);
          data := buffers.mem[ptr..ptr + b.sizeWords * Buffers.WORD];
        }
      }
    }

    /** strela_buffer_from_ptr(), for an address given as an offset from the mapping. */
    method BufferFromPtr(ptr: int) returns (r: Buffers.FromPtrResult)
      requires Valid()
      ensures r == if DevOk() then Buffers.FromPtr(buffers.c, buffers.mem[..], ptr) else Buffers.Found(Buffers.NO_BUFFER)
      ensures forall t, b | DevOk() && Buffers.Backs(buffers.c, buffers.State(), t, b) && ptr == Buffers.ToPtr(buffers.c.limit, b) ::
        r == Buffers.Found(b)
      ensures !DevOk() || ptr < 0 || ptr >= buffers.c.size ==> r == Buffers.Found(Buffers.NO_BUFFER)
    {
      r := Buffers.Found(Buffers.NO_BUFFER);
      if DevOk() && 0 <= ptr < Buffers.TENSOR_BYTES {
        var header := ptr - buffers.c.HeaderSize();
        var orig := if 0 <= header < buffers.mem.Length then buffers.mem[header] else 0;
        if orig < 0 || orig % Buffers.WORD != 0 {
          r := Buffers.Aborted;
        } else {
          r := Buffers.Found(Buffers.Buffer(true, ptr / Buffers.WORD, orig / Buffers.WORD));
        }
      }
      assert r == if DevOk() then Buffers.FromPtr(buffers.c, buffers.mem[..], ptr) else Buffers.Found(Buffers.NO_BUFFER);
      forall t, b | DevOk() && Buffers.Backs(buffers.c, buffers.State(), t, b) && ptr == Buffers.ToPtr(buffers.c.limit, b)
        ensures r == Buffers.Found(b)
      {
        Buffers.PtrRoundTrip(buffers.c, buffers.mem[..], buffers.head, buffers.State(), t, b);
      }
    }

    /** strela_buffer_free(). */
    method BufferFree(b: Buffers.Buffer)
      requires Valid() && Library.Allowed(buffers.c, View(), Library.BufferFree(b))
      modifies this`errnum, buffers`used, buffers`head, buffers`tiles, buffers.mem
      ensures Valid() && View() == Library.Step(buffers.c, old(View()), Library.BufferFree(b))
      ensures BufferMemory.CallStep(buffers.c, old(World()), Library.BufferFree(b), World())
      ensures old(DevOk()) && b.valid ==> errnum == OK
      ensures old(DevOk()) && b.valid ==>
        Removes(LiveSet(old(buffers.tiles)), LiveSet(buffers.tiles), Buffers.ToPtr(buffers.c.limit, b))
      ensures old(DevOk()) && !b.valid ==> errnum == BAD_ARG
      ensures !(old(DevOk()) && b.valid) ==> buffers.State() == old(buffers.State())
    {
      if DevOk() {
        if !b.valid {
          errnum := BAD_ARG;
        } else {
          FreeRemoves(buffers.c, buffers.State(), Buffers.ToPtr(buffers.c.limit, b));
          buffers.Free(Buffers.ToPtr(buffers.c.limit, b));
        }
      }
      KeepsLiveIfSame(
        old(buffers.tiles), BufferMemory.Freed(buffers.c, old(View()), Library.BufferFree(b)), old(buffers.mem[..]), buffers.mem[..]);
    }

    /** strela_buffer_free_all(). */
    method BufferFreeAll()
      requires Valid()
      modifies buffers`used, buffers`head, buffers`tiles, buffers.mem
      ensures Valid() && View() == Library.Step(buffers.c, old(View()), Library.BufferFreeAll)
      ensures BufferMemory.CallStep(buffers.c, old(World()), Library.BufferFreeAll, World())
      ensures buffers.State() == if DevOk() then FreeListRuns.Initial(buffers.c) else old(buffers.State())
    {
      if DevOk() {
        buffers.FreeAll();
      }
    }

    /** strela_buffer_sync() and strela_sync(): `sent` is what the driver is asked for. */
    method BufferSync(b: Buffers.Buffer, offset: nat, count: nat, answer: Answer) returns (sent: Buffers.Sync)
      requires buffers.c.limit > 0
      modifies this`errnum
      ensures old(DevOk()) ==> sent == Buffers.BufferSync(buffers.c.limit, b, offset, count)
      ensures !old(DevOk()) ==> sent.Nothing?
      ensures Dev() == if old(DevOk()) then Synced(old(Dev()), sent, answer) else old(Dev())
    {
      sent := Buffers.Nothing;
      if DevOk() {
        if !b.valid || offset > b.sizeWords || count > b.sizeWords - offset
           || b.offsetWords > Buffers.TENSOR_WORDS || b.sizeWords > Buffers.TENSOR_WORDS - b.offsetWords {
          errnum := BAD_ARG;
          return Buffers.BadArg;
        }
      }
      if DevOk() && count != 0 {
        var limit := buffers.c.limit;
        sent := Buffers.Range((b.offsetWords + offset) % limit * Buffers.WORD % limit, count * Buffers.WORD % limit);
        if answer.Fails? {
          errnum := answer.errno;
        }
      }
    }

    /** strela_buffer_flush(). */
    method BufferFlush(b: Buffers.Buffer, offset: nat, count: nat, answer: Answer) returns (sent: Buffers.Sync)
      requires buffers.c.Valid() && buffers.c.limit >= Buffers.LINE_WORDS && AnswerOk(answer)
      modifies this`errnum
      ensures View() == Library.Step(buffers.c, old(View()), Library.BufferFlush(b, offset, count, answer))
      ensures sent == if old(DevOk()) then Buffers.Flush(buffers.c.limit, b, offset, count) else Buffers.Nothing
      ensures SetsError(old(DevOk()), old(errnum), errnum, sent, answer)
    {
      sent := Buffers.Nothing;
      var limit := buffers.c.limit;
      var start: nat, end: int := Buffers.FlushStart(limit, offset), Buffers.FlushEnd(limit, offset, count);
      if count != 0 {
        sent := BufferSync(b, start, (end - start) % limit, answer);
      }
    }

    /** strela_buffer_inval(). */
    method BufferInval(b: Buffers.Buffer, offset: nat, count: nat, answer: Answer) returns (sent: Buffers.Sync)
      requires buffers.c.Valid() && Buffers.SizeType(buffers.c.limit) && AnswerOk(answer)
      modifies this`errnum
      ensures View() == Library.Step(buffers.c, old(View()), Library.BufferInval(b, offset, count, answer))
      ensures old(DevOk()) && offset % 16 == 0 && count % 16 == 0 && count > 0 && InBuffer(b, offset + count) ==>
        sent == Buffers.Range(4 * (b.offsetWords + offset), 4 * count)
      ensures !(old(DevOk()) && offset % 16 == 0 && count % 16 == 0 && count > 0 && InBuffer(b, offset + count)) ==> !sent.Range?
      ensures old(DevOk()) && !(offset % 16 == 0 && count % 16 == 0 && InBuffer(b, offset + count)) ==> errnum == BAD_ARG
      ensures old(DevOk()) && offset % 16 == 0 && count % 16 == 0 && InBuffer(b, offset + count) ==>
        errnum == if sent.Range? && answer.Fails? then answer.errno else OK
      ensures !old(DevOk()) ==> errnum == if offset % 16 == 0 && count % 16 == 0 then old(errnum) else BAD_ARG
    {
      Buffers.AlignedWords(buffers.c.limit, offset);
      Buffers.AlignedWords(buffers.c.limit, count);
      Buffers.SyncIsExact(buffers.c.limit, b, offset, count);
      if Buffers.Misaligned(buffers.c.limit, offset, count) {
        errnum := BAD_ARG;
      }
      sent := BufferSync(b, offset, count, answer);
    }
  }

  // ---------- what the methods promise, without the step functions ----------

  /** The handle names a slot that can be submitted. */
  predicate CanSubmit(jobs: seq<Slot>, job: Handle) {
    job.valid && job.index < |jobs| && (jobs[job.index].phase.Configured? || jobs[job.index].phase.Done?)
  }

  /** The handle names a slot that can be waited for. */
  predicate CanWait(jobs: seq<Slot>, job: Handle) {
    job.valid && job.index < |jobs| && (jobs[job.index].phase.Submitted? || jobs[job.index].phase.Done?)
  }

  /** One more job is in the driver, its fence is in the slot's sync object, and the slot is submitted for it. */
  ghost predicate Enters(s: State, s': State, i: nat, exported: Answer) {
    && i < |s.slots| && |s'.slots| == |s.slots|
    && s'.kernel.jobs == s.kernel.jobs + [false]
    && s'.kernel.syncobjs == s.kernel.syncobjs[s.slots[i].syncobj := |s.kernel.jobs|]
    && s'.slots[i].phase.Submitted? && s'.slots[i].job == |s.kernel.jobs| && s'.slots[i].syncobj == s.slots[i].syncobj
    && (forall k | 0 <= k < |s.slots| && k != i :: s'.slots[k] == s.slots[k])
    && match exported
       case Gives(fd) => s'.slots[i].fd == fd && fd in s'.kernel.fds && s'.kernel.fds[fd] == Fence(|s.kernel.jobs|) && s'.errnum == OK
       case Fails(e) => s'.slots[i].fd == s.slots[i].fd && s'.errnum == e
  }

  /** The job was done, or the kernel says that it is now. */
  predicate EndsWait(slot: Slot, answer: Poll) {
    slot.phase.Done? || (answer.Ready? && answer.info.Gives?)
  }

  /** What strela_job_poll() reports, from the kernel's answer and the slot before. */
  function Reports(ok: bool, jobs: seq<Slot>, job: Handle, answer: Poll): JobState {
    if !ok || !CanWait(jobs, job) then JobFailed
    else if jobs[job.index].phase.Done? then (if jobs[job.index].status > 0 then JobOk else JobFailed)
    else match answer
      case Expired => JobPending
      case PollFails(_) => JobPending  // also when the call sets the device's error
      case Ready(Fails(_)) => JobPending
      case Ready(Gives(status)) => if status > 0 then JobOk else JobFailed
  }

  /** What strela_job_poll() and strela_job_wait() change: the status of a job that is done, or the error. */
  ghost predicate Answered(s: State, s': State, job: Handle, answer: Poll) {
    if !Ok(s) then s' == s
    else if !CanWait(s.slots, job) then s' == s.(errnum := BAD_ARG)
    else if s.slots[job.index].phase.Done? then s' == s
    else match answer
      case Expired => s' == s
      case PollFails(e) => s' == if e == EINTR then s else s.(errnum := e)
      case Ready(Fails(e)) => s' == s.(errnum := e)
      case Ready(Gives(status)) => s' == s.(slots := s.slots[job.index := s.slots[job.index].(phase := Done, status := status)])
  }

  /** Exactly the block at ptr is gone. */
  ghost predicate Removes(live: set<Tile>, live': set<Tile>, ptr: int) {
    exists t :: t in live && t.Live? && t.ptr == ptr && live' == live - {t}
  }

  /** The first `end` words are words of a valid buffer inside the tensor area. */
  predicate InBuffer(b: Buffers.Buffer, end: nat) {
    b.valid && end <= b.sizeWords && b.offsetWords + b.sizeWords <= Buffers.TENSOR_WORDS
  }

  /** The error after a cache operation on a device that was ok, or that was not. */
  ghost predicate SetsError(ok: bool, before: int, after: int, sent: Buffers.Sync, answer: Answer) {
    after ==
      if !ok then before
      else if sent.BadArg? then BAD_ARG
      else if sent.Range? && answer.Fails? then answer.errno
      else before
  }

  function Synced(s: State, sent: Buffers.Sync, answer: Answer): State {
    match sent
    case BadArg => Fail(s, BAD_ARG)
    case Nothing => s
    case Range(_, _) => if answer.Fails? then Fail(s, answer.errno) else s
  }

  /** The heap after a request for a buffer. */
  function Granted(c: Area, h: FreeListRuns.Heap, size: nat, policy: Policy): FreeListRuns.Heap
    requires c.Valid() && Representable(c, size, Buffers.LINE)
  {
    FreeListRuns.Step(c, h, FreeListRuns.DoAlloc(size, Buffers.LINE, policy))
  }

  /** b has the size asked for, and the heap gained the block behind it, unless its size in bytes wrapped. */
  ghost predicate NewlyBacked(c: Area, h: FreeListRuns.Heap, h': FreeListRuns.Heap, sizeWords: nat, b: Buffers.Buffer)
    requires c.Valid()
  {
    && b.sizeWords == sizeWords
    && (sizeWords * Buffers.WORD < c.limit ==> exists t :: Buffers.Backs(c, h', t, b) && t !in LiveSet(h.tiles))
  }

  datatype JobState = JobOk | JobPending | JobFailed

  /** The allocator's state changes exactly when it hands something out. */
  lemma {:induction false} AllocChangesIff(
    c: Area, h: FreeListRuns.Heap, h': FreeListRuns.Heap, ptr: int, size: nat, policy: Policy)
    requires c.Valid() && FreeListRuns.Good(c, h) && Representable(c, size, Buffers.LINE)
    requires h' == FreeListRuns.Step(c, h, FreeListRuns.DoAlloc(size, Buffers.LINE, policy))
    requires ptr == NULL <==> !FreeListRuns.SomeGapHolds(c, LiveSet(h.tiles), size, Buffers.LINE)
    requires ptr != NULL ==> FreeListRuns.HandsOut(c, LiveSet(h.tiles), LiveSet(h'.tiles), ptr, size, Buffers.LINE)
    ensures ptr == NULL <==> h' == h
    ensures ptr != NULL ==> ptr >= 0
  {
    var r, a := Rounded(c, size, Buffers.LINE), Alignment(c, Buffers.LINE);
    if ptr == NULL {
      ChooseFits(c, policy, h.tiles, size, Buffers.LINE);
      FreeListRuns.SomeGapHoldsIsSomeTileFits(c, h, size, Buffers.LINE);
    } else {
      var t := HandedOut(c, LiveSet(h.tiles), LiveSet(h'.tiles), ptr, size);
    }
  }

  lemma {:induction false} HandedOut(c: Area, live: set<Tile>, live': set<Tile>, ptr: int, size: nat) returns (t: Tile)
    requires c.Valid() && FreeListRuns.HandsOut(c, live, live', ptr, size, Buffers.LINE)
    ensures t in live' && t !in live && ptr >= 0
  {
    t :| t in live' && FreeListRuns.IsNewBlock(c, live, t, size, Buffers.LINE) && t.ptr == ptr;
  }

  lemma {:induction false} Backed(c: Area, h: FreeListRuns.Heap, h': FreeListRuns.Heap, ptr: nat, sizeWords: nat)
    requires Buffers.TensorArea(c) && FreeListRuns.Good(c, h')
    requires var size := sizeWords * Buffers.WORD % c.limit;
      FreeListRuns.HandsOut(c, LiveSet(h.tiles), LiveSet(h'.tiles), ptr, size, Buffers.LINE)
    ensures sizeWords * Buffers.WORD < c.limit ==>
      exists t :: Buffers.Backs(c, h', t, Buffers.HandleOf(ptr, sizeWords)) && t !in LiveSet(h.tiles)
  {
    if sizeWords * Buffers.WORD < c.limit {
      ModUnique(sizeWords * Buffers.WORD, c.limit, 0, sizeWords * Buffers.WORD);
      Buffers.AllocatedIsBacked(c, h, h', ptr, sizeWords);
    }
  }

  lemma {:induction false} FreeRemoves(c: Area, h: FreeListRuns.Heap, ptr: nat)
    requires c.Valid() && FreeListRuns.Good(c, h) && FreeListRuns.FindLive(h.tiles, ptr, 0) != NULL
    ensures Removes(LiveSet(h.tiles), LiveSet(FreeListRuns.Step(c, h, FreeListRuns.DoFree(ptr)).tiles), ptr)
  {
    FreeListRuns.StepRefines(c, h, FreeListRuns.DoFree(ptr));
  }

  lemma {:induction false} KeepsLiveIfSame(ts: seq<Tile>, k: int, m: seq<int>, m': seq<int>)
    ensures m' == m ==> KeepsLive(ts, k, m, m')
  {
  }

  lemma {:induction false} PageFacts(limit: nat, kernelBase: nat, tensorBase: nat)
    requires Buffers.SizeType(limit) && kernelBase % PAGE == 0 && tensorBase % PAGE == 0
    ensures IsPowerOfTwo(Buffers.WORD) && limit % Buffers.WORD == 0
    ensures RoundUp(kernelBase, Buffers.WORD) == kernelBase
    ensures RoundUp(PoolAllocator.KERNEL_BYTES, Buffers.WORD) == PoolAllocator.KERNEL_BYTES
    ensures tensorBase % Buffers.LINE == 0 && KERNEL_MEMORY / PoolAllocator.KERNEL_BYTES == PoolAllocator.KERNELS
  {
    assert Pow2(2) == Buffers.WORD;
    PowerPassesTest(2);
    Buffers.LimitIsLines(limit);
    DividesTransitive(Buffers.WORD, Buffers.LINE, limit);
    DividesTransitive(Buffers.WORD, PAGE, kernelBase);
    DividesTransitive(Buffers.LINE, PAGE, tensorBase);
  }

  lemma {:induction false} AllSettled(s: State)
    requires JobSlotsProofs.Owns(s) && Ok(s) && Enabled(s, FreeAll)
    ensures JobSlotsProofs.SettledFrom(s, 0)
  {
    forall i | 0 <= i < |s.slots|
      ensures JobSlotsProofs.Settled(s.kernel, s.slots[i])
    {
      JobSlotsProofs.FinishMeansSettled(s.kernel, s.slots[i]);
    }
  }
}
