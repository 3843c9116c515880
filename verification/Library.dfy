/**
 The library of lib/strela.c as one state: the device's sticky error, its job slots, the
 kernel pool and the buffer free list; and what an error means for whole runs.
 */
module Library {
  import opened FreeListSpec
  import FreeListRuns
  import Buffers
  import JobSlots
  import JobSlotsProofs
  import PoolAllocator

  datatype Lib = Lib(dev: JobSlots.State, heap: FreeListRuns.Heap, pool: PoolAllocator.PoolState)

  datatype LibCall =
    | JobCall(call: JobSlots.Call)  // jobs, strela_dev_reset_err(), and what happens around the library
    | KernelAlloc
    | KernelSet(valid: bool, handle: nat, answer: JobSlots.Answer)
    | KernelFree(valid: bool, handle: nat)
    | KernelFreeAll
    | BufferAlloc(sizeWords: nat, policy: Policy)
    | BufferCopy(buffer: Buffers.Buffer)  // strela_buffer_set_data() and strela_buffer_get_data()
    | BufferFree(buffer: Buffers.Buffer)
    | BufferFreeAll
    | BufferFlush(buffer: Buffers.Buffer, offset: nat, count: nat, answer: JobSlots.Answer)
    | BufferInval(buffer: Buffers.Buffer, offset: nat, count: nat, answer: JobSlots.Answer)

  predicate Ok(l: Lib) { JobSlots.Ok(l.dev) }

  function Fail(l: Lib, e: int): Lib { l.(dev := l.dev.(errnum := e)) }

  /** What the callers owe the library, and the kernel's answers; nothing is owed to a device with an error. */
  ghost predicate Allowed(c: Area, l: Lib, call: LibCall)
    requires c.Valid()
  {
    match call
    case JobCall(jc) => JobSlots.Enabled(l.dev, jc)
    case KernelSet(_, _, answer) => JobSlots.AnswerOk(answer)
    case BufferFlush(_, _, _, answer) => JobSlots.AnswerOk(answer)
    case BufferInval(_, _, _, answer) => JobSlots.AnswerOk(answer)
    case BufferAlloc(sizeWords, _) => Ok(l) && Buffers.SizeAccepted(c.limit, sizeWords) ==>
      Representable(c, Buffers.SizeBytes(c.limit, sizeWords), Buffers.LINE)
    case BufferFree(b) => Ok(l) && b.valid ==> FreeListRuns.FindLive(l.heap.tiles, Buffers.ToPtr(c.limit, b), 0) != NULL
    case _ => true
  }

  /** A cache range goes to the driver, whose answer may set the error. */
  function AfterSync(l: Lib, s: Buffers.Sync, answer: JobSlots.Answer): Lib {
    match s
    case BadArg => Fail(l, JobSlots.BAD_ARG)
    case Nothing => l
    case Range(_, _) => if answer.Fails? then Fail(l, answer.errno) else l
  }

  function Step(c: Area, l: Lib, call: LibCall): Lib
    requires c.Valid() && c.limit >= Buffers.LINE_WORDS && Allowed(c, l, call)
  {
    match call
    case JobCall(jc) => l.(dev := JobSlots.Step(l.dev, jc))
    case KernelAlloc =>
      if !Ok(l) then l
      else if l.pool.free == [] then Fail(l, JobSlots.NO_MEM)
      else l.(pool := PoolAllocator.StepPool(PoolAllocator.KERNELS, l.pool, PoolAllocator.Take))
    case KernelSet(valid, handle, answer) =>
      if !Ok(l) then l
      else if !valid || handle >= PoolAllocator.KERNELS then Fail(l, JobSlots.BAD_ARG)
      else if answer.Fails? then Fail(l, answer.errno) else l
    case KernelFree(valid, handle) =>
      if Ok(l) && (!valid || handle >= PoolAllocator.KERNELS) then Fail(l, JobSlots.BAD_ARG) else l
    case KernelFreeAll =>
      if Ok(l) then l.(pool := PoolAllocator.StepPool(PoolAllocator.KERNELS, l.pool, PoolAllocator.GiveAll)) else l
    case BufferAlloc(sizeWords, policy) =>
      if !Ok(l) then l
      else if !Buffers.SizeAccepted(c.limit, sizeWords) then Fail(l, JobSlots.BAD_ARG)
      else
        var heap := FreeListRuns.Step(c, l.heap, FreeListRuns.DoAlloc(Buffers.SizeBytes(c.limit, sizeWords), Buffers.LINE, policy));
        if heap == l.heap then Fail(l, JobSlots.NO_MEM) else l.(heap := heap)
    case BufferCopy(b) => if Ok(l) && !b.valid then Fail(l, JobSlots.BAD_ARG) else l
    case BufferFree(b) =>
      if !Ok(l) then l
      else if !b.valid then Fail(l, JobSlots.BAD_ARG)
      else l.(heap := FreeListRuns.Step(c, l.heap, FreeListRuns.DoFree(Buffers.ToPtr(c.limit, b))))
    case BufferFreeAll =>
      if Ok(l) then l.(heap := FreeListRuns.Step(c, l.heap, FreeListRuns.DoFreeAll)) else l
    case BufferFlush(b, offset, count, answer) =>
      if Ok(l) then AfterSync(l, Buffers.Flush(c.limit, b, offset, count), answer) else l
    case BufferInval(b, offset, count, answer) =>
      // its alignment check comes before, and without, the look at the error
      if Buffers.Misaligned(c.limit, offset, count) then Fail(l, JobSlots.BAD_ARG)
      else if Ok(l) then AfterSync(l, Buffers.BufferSync(c.limit, b, offset, count), answer) else l
  }

  // ---------- runs ----------

  ghost predicate AllAllowed(c: Area, l: Lib, calls: seq<LibCall>)
    requires c.Valid() && c.limit >= Buffers.LINE_WORDS
    decreases calls
  {
    calls == [] || (Allowed(c, l, calls[0]) && AllAllowed(c, Step(c, l, calls[0]), calls[1..]))
  }

  ghost function Run(c: Area, l: Lib, calls: seq<LibCall>): Lib
    requires c.Valid() && c.limit >= Buffers.LINE_WORDS && AllAllowed(c, l, calls)
    decreases calls
  {
    if calls == [] then l else Run(c, Step(c, l, calls[0]), calls[1..])
  }

  predicate IsReset(call: LibCall) { call == JobCall(JobSlots.ResetErr) }

  ghost predicate NoReset(calls: seq<LibCall>) { forall call | call in calls :: !IsReset(call) }

  /** The allocators and the job slots. */
  predicate SameResources(l: Lib, l': Lib) {
    l'.heap == l.heap && l'.pool == l.pool && l'.dev.slots == l.dev.slots && l'.dev.initialized == l.dev.initialized
  }

  /** With an error pending, a call changes no allocator and no slot, and the device stays in error. */
  lemma {:induction false} ErrorSticks(c: Area, l: Lib, call: LibCall)
    requires c.Valid() && c.limit >= Buffers.LINE_WORDS && Allowed(c, l, call) && !Ok(l) && !IsReset(call)
    ensures !Ok(Step(c, l, call)) && SameResources(l, Step(c, l, call))
    ensures Step(c, l, call).dev.errnum == l.dev.errnum || (call.BufferInval? && Step(c, l, call).dev.errnum == JobSlots.BAD_ARG)
  {
  }

  lemma {:induction false} ErrorSticksOverRun(c: Area, l: Lib, calls: seq<LibCall>)
    requires c.Valid() && c.limit >= Buffers.LINE_WORDS && AllAllowed(c, l, calls) && !Ok(l) && NoReset(calls)
    ensures !Ok(Run(c, l, calls)) && SameResources(l, Run(c, l, calls))
    decreases calls
  {
    if calls != [] {
      assert calls[0] in calls;
      ErrorSticks(c, l, calls[0]);
      ErrorSticksOverRun(c, Step(c, l, calls[0]), calls[1..]);
    }
  }

  lemma {:induction false} RunAppend(c: Area, l: Lib, a: seq<LibCall>, b: seq<LibCall>)
    requires c.Valid() && c.limit >= Buffers.LINE_WORDS && AllAllowed(c, l, a + b)
    ensures AllAllowed(c, l, a) && AllAllowed(c, Run(c, l, a), b) && Run(c, l, a + b) == Run(c, Run(c, l, a), b)
    decreases a
  {
    if a == [] {
      assert a + b == b;
    } else {
      assert (a + b)[1..] == a[1..] + b;
      RunAppend(c, Step(c, l, a[0]), a[1..], b);
    }
  }

  /** A run is worth its prefix up to the first failing call: what follows changes nothing it owns. */
  lemma {:induction false} RunEqualsPrefix(c: Area, l: Lib, calls: seq<LibCall>, n: nat)
    requires c.Valid() && c.limit >= Buffers.LINE_WORDS && AllAllowed(c, l, calls) && NoReset(calls) && n <= |calls|
    ensures AllAllowed(c, l, calls[..n])
    ensures !Ok(Run(c, l, calls[..n])) ==>
      !Ok(Run(c, l, calls)) && SameResources(Run(c, l, calls[..n]), Run(c, l, calls))
  {
    assert calls == calls[..n] + calls[n..];
    RunAppend(c, l, calls[..n], calls[n..]);
    if !Ok(Run(c, l, calls[..n])) {
      ErrorSticksOverRun(c, Run(c, l, calls[..n]), calls[n..]);
    }
  }

  /** So an error at the end can be looked for once, there: no failure in between is forgotten. */
  lemma {:induction false} OkAtTheEnd(c: Area, l: Lib, calls: seq<LibCall>, n: nat)
    requires c.Valid() && c.limit >= Buffers.LINE_WORDS && AllAllowed(c, l, calls) && NoReset(calls) && n <= |calls|
    requires Ok(Run(c, l, calls))
    ensures AllAllowed(c, l, calls[..n]) && Ok(Run(c, l, calls[..n]))
  {
    RunEqualsPrefix(c, l, calls, n);
  }

  // ---------- the invariant of the library ----------

  ghost predicate LibInv(c: Area, l: Lib)
    requires c.Valid()
  {
    FreeListRuns.Good(c, l.heap) && PoolAllocator.Partition(PoolAllocator.KERNELS, l.pool) && JobSlotsProofs.Owns(l.dev)
  }

  predicate IsStale(l: Lib, call: LibCall) { call.JobCall? && JobSlotsProofs.StaleExport(l.dev, call.call) }

  lemma {:induction false} HeapStep(c: Area, l: Lib, op: FreeListRuns.Op)
    requires c.Valid() && LibInv(c, l) && FreeListRuns.Allowed(c, l.heap, op)
    ensures LibInv(c, l.(heap := FreeListRuns.Step(c, l.heap, op)))
  {
    FreeListRuns.StepRefines(c, l.heap, op);
  }

  lemma {:induction false} PoolStep(c: Area, l: Lib, op: PoolAllocator.PoolOp)
    requires c.Valid() && LibInv(c, l) && PoolAllocator.Enabled(l.pool, op)
    ensures LibInv(c, l.(pool := PoolAllocator.StepPool(PoolAllocator.KERNELS, l.pool, op)))
  {
    PoolAllocator.StepKeepsPartition(PoolAllocator.KERNELS, l.pool, op);
  }

  lemma {:induction false} FailKeeps(c: Area, l: Lib, e: int)
    requires c.Valid() && LibInv(c, l)
    ensures LibInv(c, Fail(l, e))
  {
  }

  lemma {:induction false} HeapCallKeeps(c: Area, l: Lib, call: LibCall)
    requires c.Valid() && c.limit >= Buffers.LINE_WORDS && LibInv(c, l) && Allowed(c, l, call)
    requires call.BufferAlloc? || call.BufferFree? || call.BufferFreeAll?
    ensures LibInv(c, Step(c, l, call))
  {
    FailKeeps(c, l, JobSlots.BAD_ARG);
    FailKeeps(c, l, JobSlots.NO_MEM);
    if Ok(l) {
      match call
      case BufferAlloc(sizeWords, policy) =>
        if Buffers.SizeAccepted(c.limit, sizeWords) {
          HeapStep(c, l, FreeListRuns.DoAlloc(Buffers.SizeBytes(c.limit, sizeWords), Buffers.LINE, policy));
        }
      case BufferFree(b) =>
        if b.valid {
          HeapStep(c, l, FreeListRuns.DoFree(Buffers.ToPtr(c.limit, b)));
        }
      case BufferFreeAll => HeapStep(c, l, FreeListRuns.DoFreeAll);
    }
  }

  /** Every call keeps the heap tiled, the pool partitioned and the slots' ownership, unless an export goes stale. */
  lemma {:induction false} LibStepKeeps(c: Area, l: Lib, call: LibCall)
    requires c.Valid() && c.limit >= Buffers.LINE_WORDS && LibInv(c, l) && Allowed(c, l, call) && !IsStale(l, call)
    ensures LibInv(c, Step(c, l, call))
  {
    match call
    case JobCall(jc) => JobSlotsProofs.StepKeepsIff(l.dev, jc);
    case KernelAlloc => PoolStep(c, l, PoolAllocator.Take);
    case KernelFreeAll => PoolStep(c, l, PoolAllocator.GiveAll);
    case BufferAlloc(_, _) => HeapCallKeeps(c, l, call);
    case BufferFree(_) => HeapCallKeeps(c, l, call);
    case BufferFreeAll => HeapCallKeeps(c, l, call);
    case _ =>
  }

  // ---------- a buffer over whole runs ----------

  /** No call frees the buffer at ptr, or all of them. */
  ghost predicate Spares(c: Area, call: LibCall, ptr: int)
    requires c.limit > 0
  {
    !call.BufferFreeAll? && (call.BufferFree? ==> Buffers.ToPtr(c.limit, call.buffer) != ptr)
  }

  lemma {:induction false} StepKeepsBuffer(c: Area, l: Lib, call: LibCall, t: Tile)
    requires c.Valid() && c.limit >= Buffers.LINE_WORDS && Allowed(c, l, call) && t.Live? && Spares(c, call, t.ptr)
    requires FreeListRuns.Good(c, l.heap) && t in LiveSet(l.heap.tiles)
    ensures FreeListRuns.Good(c, Step(c, l, call).heap) && t in LiveSet(Step(c, l, call).heap.tiles)
  {
    if Ok(l) && call.BufferAlloc? && Buffers.SizeAccepted(c.limit, call.sizeWords) {
      Buffers.StepSpares(c, l.heap, FreeListRuns.DoAlloc(Buffers.SizeBytes(c.limit, call.sizeWords), Buffers.LINE, call.policy), t);
    } else if Ok(l) && call.BufferFree? && call.buffer.valid {
      Buffers.StepSpares(c, l.heap, FreeListRuns.DoFree(Buffers.ToPtr(c.limit, call.buffer)), t);
    }
  }

  lemma {:induction false} RunKeepsBuffer(c: Area, l: Lib, calls: seq<LibCall>, t: Tile)
    requires c.Valid() && c.limit >= Buffers.LINE_WORDS && AllAllowed(c, l, calls)
    requires FreeListRuns.Good(c, l.heap) && t in LiveSet(l.heap.tiles)
    requires forall call | call in calls :: Spares(c, call, t.ptr)
    ensures FreeListRuns.Good(c, Run(c, l, calls).heap) && t in LiveSet(Run(c, l, calls).heap.tiles)
    decreases calls
  {
    if calls != [] {
      assert calls[0] in calls;
      StepKeepsBuffer(c, l, calls[0], t);
      RunKeepsBuffer(c, Step(c, l, calls[0]), calls[1..], t);
    }
  }

  /**
   Whatever is called after a buffer was allocated, until it is freed: every flush and every
   invalidate of it passes down whole cache lines of that buffer alone, and the driver accepts
   the range if its cache alignment divides 64.
   */
  lemma {:induction false} BufferStaysIsolated(
    c: Area, l: Lib, calls: seq<LibCall>, t: Tile, b: Buffers.Buffer, offset: nat, count: nat, align: nat)
    requires Buffers.TensorArea(c) && AllAllowed(c, l, calls)
    requires FreeListRuns.Good(c, l.heap) && Buffers.Backs(c, l.heap, t, b)
    requires forall call | call in calls :: Spares(c, call, t.ptr)
    requires offset < c.limit && count < c.limit && align > 0 && Buffers.LINE % align == 0
    ensures var flush, inval := Buffers.Flush(c.limit, b, offset, count), Buffers.Inval(c.limit, b, offset, count);
      var heap := Run(c, l, calls).heap;
      && Buffers.Isolated(c, heap, t, flush) && Buffers.Isolated(c, heap, t, inval)
      && (flush.Range? ==> Buffers.GemSync(Buffers.TENSOR_BYTES, align, flush.offset, flush.length) == 0)
      && (inval.Range? ==> Buffers.GemSync(Buffers.TENSOR_BYTES, align, inval.offset, inval.length) == 0)
  {
    var flush, inval := Buffers.Flush(c.limit, b, offset, count), Buffers.Inval(c.limit, b, offset, count);
    var heap := Run(c, l, calls).heap;
    RunKeepsBuffer(c, l, calls, t);
    Buffers.FlushIsIsolated(c, heap, t, b, offset, count);
    Buffers.InvalIsIsolated(c, heap, t, b, offset, count);
    if flush.Range? {
      Buffers.DriverAccepts(c, heap, t, flush, align);
    }
    if inval.Range? {
      Buffers.DriverAccepts(c, heap, t, inval, align);
    }
  }
}
