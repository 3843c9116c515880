# STRELA: allocators, job protocol and user library, verified

STRELA is an accelerator with four DMA columns, a Linux DRM driver and a C library. This
project models the three parts whose correctness is hardest to see by reading, and proves
what they promise over every input and every run.

1. **The in-band allocators** (`lib/allocators.c`). The free list keeps its nodes and headers
   in the memory it hands out. `FreeList` works in place on an array of cells; its methods
   are proved against a step function over a tiling of the area, and every run of that
   function refines "a set of disjoint blocks". The same is done for the pool.
2. **The driver's job protocol** (`driver/strela_job.c`, `driver/strela_core.c`). Submit,
   the scheduler's callbacks, completions, the timeout handler, removal and the simulated
   worker are the steps of one state machine; an inductive invariant holds over all
   interleavings. The submit path, the locked regions and the retirement loop are methods
   proved to perform those steps. The binding check, the size register and the simulated
   copy are proved on machine integers.
3. **The user library** (`lib/strela.c`). Job slots that own sync objects and descriptors,
   the sticky error, buffer handles, and cache-line-exact flush and invalidate on top of the
   free list.

| file | holds |
|---|---|
| `Bits.dfy` | powers of two and masks on machine words |
| `FreeListSpec.dfy`, `FreeListRuns.dfy` | tilings, the two policies, runs, the set-of-blocks specification |
| `SizeLimits.dfy` | requests at the top of a `size_t`, and what becomes of them |
| `FreeListMemory.dfy`, `FreeListSteps.dfy`, `FreeList.dfy` | nodes and headers in memory, and the allocator in place |
| `Pool.dfy` | the pool and kernel handles |
| `Binding.dfy`, `SimExec.dfy` | the binding check, the size register, the simulated copy |
| `JobProtocol.dfy`, `JobProtocolProofs.dfy`, `JobDriver.dfy` | the state machine, its invariant, the driver's code |
| `JobCopies.dfy` | what the simulated worker has copied when it reports a job |
| `Buffers.dfy`, `JobSlots.dfy`, `JobSlotsProofs.dfy`, `Library.dfy`, `StrelaDevice.dfy` | the user library |
| `BufferMemory.dfy` | the library together with the memory, and clients that write it |

## How the source is represented

- Addresses are offsets from the start of the managed area; NULL is -1. Memory is an array
  of byte cells: a stored word keeps its value in its first cell and wipes the others. Every
  store of the free list is proved to be at a multiple of the word size (`Store` requires it),
  so no store can begin inside another word.
- The ABI is symbolic: `sizeof(size_t)`, `sizeof(max_align_t)` (a power of two, multiple of
  the word) and the number of `size_t` values are parameters. A node is two words, a header
  three.
- `free_list_alloc` and `free_list_free` are split into the methods `Select`, `TakeNode`,
  `Release`, `Coalescence` and so on; the order of loads and stores is the source's.
- The scheduler is an environment. What is assumed of it is the guards of the steps marked
  `[sched]` in `JobProtocol.dfy`, taken from DESIGN.md sections D4 and D7: one credit, stop
  parks and drops fences, start cancels and unparks, removal waits for the handler first.
- System calls of the library answer nondeterministically; `JobSlots.Enabled` says which
  answers are possible. A call that blocks is a step that is enabled once it can return, and
  `abort()` shows up as a violation that is proved not to occur.
- `job` in a slot, `history` in a job, the protocol's log of copies and the kernel's tables are
  bookkeeping for the proofs.

## Findings

- **An accepted completion can be lost.** Success implies both completions, but the converse
  is false: an exec completion accepted after `drm_sched_stop()` dropped the fence and before
  the abort belongs to a job that is still canceled (`LateCompletionIsLost`). It happens
  exactly while the handler has detached the fence (`CompletionIsLostIff`).
- **A failed export on a resubmit leaves a stale descriptor** (lib/strela.c:743-764). Ownership
  survives a call exactly when it is not such a resubmit (`StepKeepsIff`); otherwise a run
  exists that closes another file of the process and lets a running job go
  (`StaleExportClosesAStranger`).
- **Tearing down a device in error leaks** the exported descriptors its slots hold
  (`DeinitLeaks` is such a run; exactly when: `DeinitLeaksNothingIff`).
- **A flush whose rounded end wraps does not cover what it was asked for** and may set no
  error: without one, all words are covered exactly when `offset + count + 15` fits a `size_t`
  (`FlushCoversIff`). A flush of SIZE_MAX words from 0 does nothing (`WrappedFlushDoesNothing`).
- **The last partial cache line of a buffer can never be flushed**: the rounded range exceeds
  `size_words` and is refused, although those bytes belong to the buffer alone
  (`LastPartialLineIsRefused`, `LinesArePrivate`).
- **The overflow check of `strela_buffer_alloc` lets wrapped products through**: besides the
  sizes below a quarter of all values it accepts two more intervals (`SizeAcceptedIff`).
- **`free_list_alloc` does not check its sums.** Rounding and adding the padding can both leave
  a `size_t`. The search then grants a node that has no room, and exactly when it does is
  `WronglyGrantedIff`; a node that can hold the padding is judged rightly exactly when the
  rounded size plus the padding fits a `size_t` (`TestIsRightIff`). `WrappedRequest` is a
  request whose rounding wraps, `WrappedSum` one whose rounding is fine and whose sum wraps.
- **So a buffer handle can claim words it does not have.** A granted handle's block holds its
  words exactly when product, rounding and sum all fit, which is exactly when the size asked for
  is no more than the whole tensor area (`BlockHoldsBufferIff`). SIZE_MAX / 4 words pass the
  overflow check and are granted (`QuarterOfMemory`); which oversize requests are granted at
  all is `OversizeGrantedIff`.
- **The simulated copy differs from a simultaneous one** exactly when a word is read after an
  earlier move put another word there (`AlwaysSimultaneousIff`); the driver accepts such
  bindings (`ShiftedDiffers`). Overlap as such is harmless: see `InPlaceIsFine`.
- **A poll that fails reports the job as pending**: `strela_job_poll` looks for an error before
  the call it makes, not after, so the error it has just set is seen only by the next call
  (`Reports` and `Answered` in the contract of `JobPoll`).
- Code and design notes disagree in two places; the model follows the code: DESIGN.md D10
  names functions to reset and settle the device where the code has `strela_hw_stop`, and D3
  has SUBMIT return a descriptor where the code fills a sync object.

## Model

| member | source | states |
|---|---|---|
| `Bits.IsPowerOfTwoIsExact` | lib/allocators.c:10-13 | the mask test accepts exactly the powers of two |
| `Bits.MaskIsMod` | lib/allocators.c:15-43 | masking with a power of two minus one is the remainder |
| `Bits.AlignForwardWraps` | lib/allocators.c:15-43 | aligning forward rounds up, or wraps to 0, and exactly when |
| `FreeListSpec.CalcPaddingIsLeast` | lib/allocators.c:408-438 | the padding is the least one that holds the header and aligns the payload |
| `SizeLimits.RoundingWrapsIff` | lib/allocators.c:529-537 | a request is rounded up to its alignment exactly up to the last multiple in a size_t, and to 0 beyond |
| `SizeLimits.RequiredIs` | lib/allocators.c:448-450 | what required_space comes to, for every request |
| `SizeLimits.WronglyGrantedIff` | lib/allocators.c:529-551 | no node with room is refused; a node without room is granted exactly when the sum leaves a size_t and the rounding does not, or the node holds the padding |
| `SizeLimits.TestIsRightIff` | lib/allocators.c:448-452 | for a node that can hold the padding the test agrees with the unbounded one iff rounded size plus padding fits a size_t |
| `SizeLimits.RoomIff` | lib/allocators.c:545-570 | a granted block has room for the rounded size iff that sum fits a size_t |
| `SizeLimits.BlockIsCarved` | lib/allocators.c:545-570 | for representable requests that block is the one of the step function |
| `SizeLimits.WrappedRequest` | lib/allocators.c:529-551 | any size whose rounding wraps is granted by any node that holds the padding, and gets less than two nodes |
| `SizeLimits.WrappedSum` | lib/allocators.c:529-556 | one alignment short of the top, required_space is 0 and the node is split at its own start |
| `FreeListSpec.ChooseIsChoice` | lib/allocators.c:440-492 | a search fails only if no node passes its test, else finds the lowest that does (first fit) or the least leftover, ties to the lowest address (best fit) |
| `FreeListSpec.TestIsExact` | lib/allocators.c:448-452 | for a representable request the test, in size_t, is whether the node has room |
| `FreeListSpec.ChooseFits` | lib/allocators.c:440-492 | so it is refused only when no gap has room, and gets one that has |
| `FreeListSpec.ChoiceIsUnique` | lib/allocators.c:440-492 | a policy determines its choice |
| `FreeListSpec.AllocAtKeepsTiling` | lib/allocators.c:545-570 | splitting a gap keeps the area tiled, aligned and coalesced, and adds exactly the new block |
| `FreeListSpec.FreeAtKeepsTiling` | lib/allocators.c:573-619 | freeing with coalescing both ways keeps the area tiled and coalesced, and removes exactly the block |
| `FreeListRuns.FreeTilesAreTheGaps` | lib/allocators.c:573-619 | in a reachable state the free nodes are exactly the maximal gaps between live blocks |
| `FreeListRuns.LiveBlocksDetermineTiles` | lib/allocators.c:573-619 | the live blocks alone determine the free list: no history is left in it |
| `FreeListRuns.StepRefines` | lib/allocators.c:520-619 | one operation keeps the invariant and does what the set-of-disjoint-blocks specification says |
| `FreeListRuns.RunRefines` | lib/allocators.c:387-619 | so does every run, with `used` plus the free sizes equal to the size |
| `FreeListRuns.FreedInAnyOrder` | tools/test_allocator.c:100-112 | freeing all live blocks in any order leaves the single node the area started with |
| `FreeListRuns.PtrsAreUnique` | lib/allocators.c:563-570 | different live blocks have different pointers |
| `FreeListRuns.AllocTakesPolicyGap` | lib/allocators.c:440-571 | over the set of live blocks: first fit takes the lowest maximal gap that holds the request, best fit the one that leaves least, ties to the lowest; the block starts there and is as large as needed unless less than two nodes would be left |
| `FreeListAllocator.FreeList.constructor` | lib/allocators.c:396-406 | initialisation aligns the base, and the area is one free node |
| `FreeListAllocator.FreeList.FreeAll` | lib/allocators.c:387-394 | from any contents, one node of the whole size |
| `FreeListAllocator.FreeList.Measure` | lib/allocators.c:447-452 | per node: the padding, and the bytes needed in size_t arithmetic |
| `FreeListAllocator.FreeList.FindFirst` | lib/allocators.c:440-460 | for every size, the walk over the nodes in memory finds the first that passes, with its padding and predecessor |
| `FreeListAllocator.FreeList.FindBest` | lib/allocators.c:462-492 | for every size, the walk finds the node with the least leftover, with its padding and predecessor |
| `FreeListAllocator.FreeList.NodeInsert` | lib/allocators.c:494-509 | the stores that link a node in |
| `FreeListAllocator.FreeList.NodeRemove` | lib/allocators.c:511-518 | the stores that unlink a node |
| `FreeListAllocator.FreeList.Alloc` | lib/allocators.c:520-571 | performs the step; NULL iff no maximal gap holds padding plus the rounded size; else exactly the policy's block is added, aligned and clear of all others; no live block's cells change |
| `FreeListAllocator.FreeList.Coalescence` | lib/allocators.c:573-584 | merges right, then left, in memory, touching no live block |
| `FreeListAllocator.FreeList.Release` | lib/allocators.c:586-616 | the freed node, which may overlap the header it is read from, is linked in by address; no other live block's cells change |
| `FreeListAllocator.FreeList.Free` | lib/allocators.c:586-619 | performs the step; no other live block's payload or header changes |
| `PoolAllocator.RunKeepsPartition` | lib/allocators.c:94-157 | over every run the list has no repetition and is exactly the chunks not handed out |
| `PoolAllocator.FreeAllThenDrain` | lib/allocators.c:140-157 | after free_all exactly `count` allocations succeed, all different, then NULL |
| `PoolAllocator.Pool.constructor` | lib/allocators.c:67-92 | initialisation aligns base and chunk size and frees every chunk |
| `PoolAllocator.Pool.FreeAll` | lib/allocators.c:140-157 | from any contents, every chunk once on the list |
| `PoolAllocator.Pool.Alloc` | lib/allocators.c:94-109 | pops the head, zeroes that chunk and changes no other cell; NULL iff none is free |
| `PoolAllocator.Pool.Free` | lib/allocators.c:111-138 | pushes a live chunk and changes no other chunk |
| `PoolAllocator.HandlesAreExact` | lib/strela.c:240-326 | kernel handles 0..127 and chunk addresses convert to each other and back |
| `Binding.CheckIsExact` | driver/strela_job.c:207-229 | the check on wrapping u64 values accepts iff the unbounded condition holds |
| `Binding.StrideCheckIsNeeded` | driver/strela_job.c:219-221 | without the stride test a byte count of 2^64 would wrap to 0 and pass |
| `Binding.RegisterHalves` | driver/strela_core.c:112-116 | for an accepted binding neither half of the register spills into the other |
| `Binding.RegisterRoundTrip` | driver/strela_core.c:112-116 | stride and count can be read back from the register |
| `Binding.RegisterIsInjective` | driver/strela_core.c:262-281 | different bindings program different registers; stride 0 differs from 1 |
| `Binding.IdleColumn` | driver/strela_core.c:112-116 | with a count of 0 the byte count is 0 for any stride |
| `SimExec.AccessInBounds` | driver/strela_core.c:176-214 | every word an accepted column reads or writes is inside its buffer, stride 0 included, and u32 indices do not wrap |
| `SimExec.BypassColumn` | driver/strela_core.c:176-214 | the copy loop, and that it reports whether the output is fed |
| `SimExec.Execute` | driver/strela_core.c:219-260 | exec-done is raised iff no wait was aborted and every output is fed; an abort stops after whole columns |
| `SimExec.SequentialIsSimultaneous` | driver/strela_core.c:242-252 | columns with separate outputs copied one after another equal the simultaneous specification on every memory, when no word is read after another word was put there |
| `SimExec.SequentialIsSimultaneousIff` | driver/strela_core.c:242-252 | on a memory of distinct words, only then |
| `SimExec.AlwaysSimultaneousIff` | driver/strela_core.c:242-252 | they agree on every memory iff there is no such read |
| `SimExec.CopyColumnsPerforms` | driver/strela_core.c:206-210 | the columns' loops are one list of moves |
| `SimExec.UnreadOutputsAreFine` | driver/strela_core.c:242-252 | outputs no column reads have no such read |
| `SimExec.InPlaceIsFine` | driver/strela_core.c:206-210 | nor has a column that copies every word onto itself |
| `SimExec.SharedOutputHasNoEffect` | driver/strela_core.c:242-252 | a word filled from two different words satisfies no simultaneous specification |
| `SimExec.SimultaneousIsUnique` | driver/strela_core.c:242-252 | that specification determines the memory |
| `SimExec.OverlapShows` | driver/strela_core.c:206-210 | a column whose second read is its first write differs on some memory |
| `SimExec.ShiftedDiffers` | driver/strela_job.c:207-229 | the check accepts such a column |
| `JobProtocolProofs.StepKeeps` | driver/strela_job.c:43-202 | every step of every thread keeps the invariant |
| `JobProtocolProofs.RunKeeps` | driver/strela_job.c:43-202 | so does every run |
| `JobProtocolProofs.NothingBadHappens` | driver/strela_job.c:93-147 | in no interleaving does a drm_WARN_ON on `active` fire, is a freed job used, or a completion accepted for the wrong job |
| `JobProtocolProofs.ActiveIsTheJobInFlight` | driver/strela_job.c:43-76 | `active` is null or the one started job whose fence has not signalled, and conversely unless it is being taken off |
| `JobProtocolProofs.WorkerNeverDangles` | driver/strela_core.c:219-260 | the job the simulated worker keeps after unlocking is not finished or freed, and is the active one if any is |
| `JobProtocolProofs.EveryJobEndsOnce` | driver/strela_job.c:119-202 | each hardware fence signals at most once, each job ends and is freed at most once, and success follows an accepted config and then an accepted exec completion of that job |
| `JobProtocolProofs.RemovalRetiresEverything` | driver/strela_job.c:177-202 | when removal is done every started job has ended once and is freed |
| `JobProtocolProofs.ReferencesBalance` | driver/strela_job.c:30-39 | buffers are referenced by exactly the jobs not freed, nine references each |
| `JobProtocolProofs.SuccessIsReachable` | driver/strela_job.c:43-76 | some run of a real device ends in success |
| `JobProtocolProofs.AttachOutcome` | driver/strela_job.c:93-117 | a job that completed before its fence reached the scheduler succeeds; any other is waited for |
| `JobCopies.StepKeepsPasses` | driver/strela_core.c:219-300 | every step keeps the record of what the worker copied for whom |
| `JobCopies.ExecDoneIsEarned` | driver/strela_core.c:236-259 | over every run, an exec completion accepted from the worker was preceded by the copies of columns 0 to 3 of that job, once each and in order, every output fed |
| `JobCopies.SimSuccessIsEarned` | driver/strela_core.c:236-259 | so was every success of a simulated job |
| `JobCopies.UnfedNeverSucceeds` | driver/strela_core.c:254-257 | a simulated job with an output its input cannot feed never succeeds |
| `JobCopies.AbortEndsPass` | driver/strela_core.c:149-155 | while an abort waits for the worker, a waiting worker can only give up and reports nothing |
| `JobCopies.WholePass` | driver/strela_core.c:245-259 | a pass that is not aborted copies all columns and reports the exec phase iff every output is fed |
| `JobCopies.SimSuccessIsReachable` | driver/strela_core.c:219-260 | some run of a simulated device ends in success |
| `JobProtocolProofs.LateCompletionIsLost` | driver/strela_job.c:135-147 | some run accepts the exec completion and cancels the job |
| `JobProtocolProofs.CompletionIsLostIff` | driver/strela_job.c:135-147 | that happens exactly while the handler has dropped the fence |
| `JobProtocolProofs.PhotoFinishIsReachable` | DESIGN.md:244-246 | a handler called for a job that succeeds can cancel its successor |
| `JobDriver.SubmitAcceptsIff` | driver/strela_job.c:207-357 | a submit succeeds iff flags are known, the kernel's calls succeed, every handle is open, the config and outputs are contiguous words inside their objects and below 64 KiB, and the inputs are so with their strides |
| `JobDriver.SubmitFailsWith` | driver/strela_job.c:273-357 | otherwise the errno of the first thing wrong; of the bindings, the first unsound one in order, -ENOENT or -EINVAL |
| `JobDriver.AcceptedColumns` | driver/strela_job.c:318-331 | the four columns of an accepted submit satisfy what the simulated copy needs to stay in bounds |
| `JobDriver.Device.BindingGet` | driver/strela_job.c:238-260 | a reference is taken iff the binding is accepted |
| `JobDriver.Device.PutBindings` | driver/strela_job.c:30-39 | drops exactly the references held |
| `JobDriver.Device.ResolveBindings` | driver/strela_job.c:318-331 | the first error in order, and exactly the references taken before it |
| `JobDriver.Device.Submit` | driver/strela_job.c:273-357 | at every point of failure references net to zero and no job exists; on success one job is queued with its nine objects, a reference on each, and the words of its columns |
| `JobDriver.QueuesIsSubmit` | driver/strela_job.c:341-348 | what a successful submit does is the protocol's submit step |
| `JobDriver.Device.RunJob` | driver/strela_job.c:93-117 | performs the run step |
| `JobDriver.Device.PhaseDone` | driver/strela_job.c:43-76 | a completion for another phase or no job changes nothing; config moves the active job to exec; exec signals its fence, once, and clears `active` |
| `JobDriver.Device.FreeJob` | driver/strela_job.c:149-157 | performs the free step, dropping the job's references |
| `JobDriver.Device.RetireJob` | driver/strela_job.c:192-201 | performs the retire step: fails an unsignalled fence, then frees |
| `JobDriver.Device.RetirePending` | driver/strela_job.c:187-202 | the loop retires every pending job once, in any order, and leaves the invariant and the balance intact |
| `Buffers.AllocatedIsBacked` | lib/strela.c:337-363 | a new handle names the new block: address, size, cache-line alignment |
| `Buffers.LinesArePrivate` | lib/strela.c:346-351 | in every reachable heap no cache line of a buffer holds any header, node or other buffer |
| `Buffers.FlushIsIsolated` | lib/strela.c:465-480 | whatever its arguments, a flush passes down whole lines inside its buffer, clear of everything else |
| `Buffers.InvalIsIsolated` | lib/strela.c:488-501 | so does an invalidate |
| `Buffers.FlushCoversIff` | lib/strela.c:465-480 | a flush without an error covers all requested words iff the rounded end does not wrap |
| `Buffers.FlushAcceptedIff` | lib/strela.c:443-480 | which flushes are accepted and which are refused |
| `Buffers.FlushRangeIs` | lib/strela.c:465-480 | an accepted flush names exactly the lines that hold the words |
| `Buffers.InvalAcceptedIff` | lib/strela.c:488-501 | which invalidates are accepted, and that they name exactly the requested words |
| `Buffers.LastPartialLineIsRefused` | lib/strela.c:443-480 | flushing up to a size that is not a multiple of a line always fails |
| `Buffers.WrappedFlushDoesNothing` | lib/strela.c:465-480 | a flush of SIZE_MAX words sets no error and does nothing |
| `Buffers.GemSyncIff` | driver/strela_gem.c:187-202 | the driver accepts exactly the aligned ranges inside the object |
| `Buffers.DriverAccepts` | driver/strela_gem.c:187-202 | so it accepts every such range when its cache alignment divides 64 |
| `Buffers.PtrRoundTrip` | lib/strela.c:365-399 | from_ptr(to_ptr(b)) == b for every live buffer, read from its header in memory |
| `Buffers.SizeAcceptedIff` | lib/strela.c:343-344 | the three intervals of sizes the overflow check accepts, two of them wrapped |
| `Buffers.BlockHoldsBufferIff` | lib/strela.c:343-356 | the block granted for any accepted size holds the handle's words iff product, rounding and sum fit a size_t, iff the size is at most the tensor area |
| `Buffers.OversizeGrantedIff` | lib/strela.c:343-356 | exactly which accepted sizes beyond the tensor area a node grants |
| `Buffers.QuarterOfMemory` | lib/strela.c:343-356 | SIZE_MAX / 4 words are accepted and granted by any node that holds the padding |
| `Buffers.WrappedSizeIsAccepted` | lib/strela.c:343-344 | on every word size a wrapped product is accepted |
| `JobSlotsProofs.InitOwns` | lib/strela.c:964-988 | a fresh device owns nothing |
| `JobSlotsProofs.FinishMeansSettled` | lib/strela.c:548-574 | the wait before a release returns iff the slot's job is out of the driver |
| `JobSlotsProofs.ReleaseIs` | lib/strela.c:576-601 | a release closes the slot's descriptor and destroys its sync object, once each |
| `JobSlotsProofs.StepKeepsIff` | lib/strela.c:608-842 | a call keeps ownership intact iff it is not a resubmit whose export fails |
| `JobSlotsProofs.RunKeeps` | lib/strela.c:608-842 | over every run without one, each phase owns what it should, nothing leaks, is closed twice, or is released or resubmitted while in the driver |
| `JobSlotsProofs.StaleBreaks` | lib/strela.c:743-764 | after such a resubmit the slot holds the number of a closed descriptor |
| `JobSlotsProofs.StaleExportClosesAStranger` | lib/strela.c:743-764 | a run in which that number closes another file and a running job is let go |
| `JobSlotsProofs.FreeAllLeavesNothing` | lib/strela.c:608-617 | free_all gives back every sync object and descriptor and leaves no job in the driver |
| `JobSlotsProofs.DeinitLeaksNothingIff` | lib/strela.c:1015-1027 | teardown leaks no descriptor iff the device has no error or no slot holds one |
| `JobSlotsProofs.DeinitLeaks` | lib/strela.c:1015-1027 | a run after which teardown leaves an exported descriptor open |
| `Library.ErrorSticks` | lib/strela.c:216-236 | with an error pending no call changes an allocator or a slot or clears the error; only an invalidate may replace its code |
| `Library.RunEqualsPrefix` | lib/strela.c:216-842 | without resets, a run leaves the resources of its prefix up to the failing call, and stays in error |
| `Library.OkAtTheEnd` | lib/strela.c:232-236 | no error at the end means none at any point of the run |
| `Library.LibStepKeeps` | lib/strela.c:240-842 | every call keeps the heap tiled, the pool partitioned and ownership intact, but for the stale export |
| `Library.BufferStaysIsolated` | lib/strela.c:337-501 | after any run of the library that does not free the buffer, every flush and invalidate of it is isolated and passes the driver's checks |
| `FreeListSteps.PayloadWriteKeepsImage` | lib/strela.c:401-411 | a client that writes its own payload leaves the free list, every header and every other block as they are |
| `BufferMemory.StepKeepsData` | lib/strela.c:337-441 | a call or a client's write keeps every buffer it does not free, and the data of every buffer it does not write |
| `BufferMemory.BufferSurvives` | lib/strela.c:330-441 | over any run of calls and writes, a buffer not freed stays backed, its address leads back to its handle through the header in memory, and its data stay unless it is written |
| `BufferMemory.WrittenDataStay` | lib/strela.c:401-423 | what was written in a buffer is read there after any run that neither frees nor writes it |
| `StrelaDevice.Device.constructor` | lib/strela.c:964-1006 | pool and free list built on the two mappings, no slot used; the library's invariant holds |
| `StrelaDevice.Device.SlotRelease` | lib/strela.c:548-601 | performs the release |
| `StrelaDevice.Device.ResetErr` | lib/strela.c:216-221 | clears the error of an initialised device and nothing else |
| `StrelaDevice.Device.JobFreeAll` | lib/strela.c:608-617 | the loop performs the step, leaves every slot unused and nothing open |
| `StrelaDevice.Device.JobConfig` | lib/strela.c:619-690 | a handle iff the device and the kernel are good, a slot is unused and a sync object was created; it names the first unused slot, which now owns that object; else the error, and nothing changed |
| `StrelaDevice.Device.SlotGet` | lib/strela.c:701-714 | a slot is returned iff the device is ok, and otherwise the error is set |
| `StrelaDevice.Device.JobFree` | lib/strela.c:716-724 | the slot becomes unused and no other changes; a bad handle sets the error |
| `StrelaDevice.Device.JobSubmit` | lib/strela.c:726-768 | true iff the device is ok, the handle names a configured or done slot and both calls succeed; then one more job is in the driver and the slot is submitted for it; a refusal changes nothing but the error |
| `StrelaDevice.Device.JobPoll` | lib/strela.c:771-819 | what is reported, stored and set, from the kernel's answer and the slot before; OK iff the status is positive, and then the job is out of the driver |
| `StrelaDevice.Device.JobWait` | lib/strela.c:821-833 | true iff the slot was done or the kernel says so now, and then the job is out of the driver |
| `StrelaDevice.Device.KernelAlloc` | lib/strela.c:240-258 | a handle below 128 of a chunk not handed out, iff the device is ok and one is free |
| `StrelaDevice.Device.KernelSet` | lib/strela.c:279-298 | the bitstream is written to the kernel's chunk and nowhere else, and exactly that chunk is flushed; a bad handle sets the error |
| `StrelaDevice.Device.KernelFree` | lib/strela.c:300-319 | checks its argument and frees nothing |
| `StrelaDevice.Device.KernelFreeAll` | lib/strela.c:321-326 | on an ok device every chunk is free again |
| `StrelaDevice.Device.BufferAlloc` | lib/strela.c:337-363 | performs the step, keeping every block's cells; a valid handle is backed by a new block unless its size wrapped; else the error, and the heap is unchanged |
| `StrelaDevice.Device.BufferSetData` | lib/strela.c:401-411 | writes exactly the buffer's payload; the allocator stays valid |
| `StrelaDevice.Device.BufferGetData` | lib/strela.c:413-423 | reads exactly the buffer's payload |
| `StrelaDevice.Device.BufferFromPtr` | lib/strela.c:377-399 | reads the header in memory; the address of any live buffer gives back its handle |
| `StrelaDevice.Device.BufferFree` | lib/strela.c:425-434 | exactly the buffer's block is gone, and every other block's cells are kept; a bad handle sets the error |
| `StrelaDevice.Device.BufferFreeAll` | lib/strela.c:436-441 | on an ok device the heap is one free node again |
| `StrelaDevice.Device.BufferFlush` | lib/strela.c:465-480 | sends the driver exactly the computed range, and sets the error it should |
| `StrelaDevice.Device.BufferInval` | lib/strela.c:488-501 | on an ok device an aligned, non-empty request inside the buffer sends exactly its bytes; every other call sends nothing; the error in each case |

## Left out

- The arena and the temporary arena of `lib/allocators.c`: unused by the library, easy properties only.
- FreeListAllocator.FreeList.Alloc: requires a representable request, as its caller must ensure; the searches are proved for every size, and `SizeLimits.dfy` says exactly when the others are granted and what block they get, but not what the damaged heap does afterwards.
- StrelaDevice.Device.BufferAlloc: the same bound on the size in bytes, because it calls `Alloc`; `BlockHoldsBufferIff` and `OversizeGrantedIff` cover the rest.
- FreeListAllocator.FreeList.constructor: requires an area that holds a node after alignment; the source asserts less, and its first node would lie outside the area.
- Pointers that were not handed out, and double frees: the source checks the pool's range and nothing else; `Free` requires a live block or NULL.
- The superseded character driver `driver/strela_driver.c` and its headers and test.
- Device discovery, opening, mapping and `strela_dev_count`: input/output only.
- `strela_dev_init` beyond its resulting state, and re-initialisation of a device that holds resources.
- `strela_config` and `strela_execute`, the old interface over one job, and handles kept across `strela_job_free_all`, which the source declares invalid.
- `strela_job_fd` and `strela_dev_get_err`, which only read.
- The out-fence a submit puts in the caller's sync object, and the in-fence it waits for: their lookups can fail, their contents are not modelled.
- `drm_sched`, dma-fence, GEM and syncobj internals: assumed through the guards of the steps.
- The timing of real interrupts: a late interrupt carries no job, so misattribution is excluded for the simulated device only.
- Ordering by `fence_seqno`, which is assigned at submit while arbitration decides the order of execution.
- The register writes of `strela_hw_program` and `strela_hw_start` other than the value of the size registers; phase durations and jitter.
- Other fields of a slot's submit arguments than its sync object: they are filled in once and passed through.
- Columns whose outputs share a word that both fill from the same word: the exact condition is proved for separate outputs. Filled from different words, the simultaneous effect does not exist (`SharedOutputHasNoEffect`).
