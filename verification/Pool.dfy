/**
 The fixed-size pool of lib/allocators.c: a stack of free chunks threaded through the chunks
 themselves. Addresses are offsets from `p->buf`; NULL is -1.
 */
module PoolAllocator {
  import opened Bits
  import opened FreeListSpec
  import opened FreeListMemory

  /** The specification: the free chunks in list order, and the chunks handed out. */
  datatype PoolState = PoolState(free: seq<nat>, live: set<nat>)

  datatype PoolOp = Take | Give(chunk: nat) | GiveAll

  function Countdown(n: nat): (r: seq<nat>)
    ensures |r| == n && forall i | 0 <= i < n :: r[i] == n - 1 - i
  {
    seq(n, i requires 0 <= i < n => n - 1 - i)
  }

  function Fresh(count: nat): PoolState {
    PoolState(Countdown(count), {})
  }

  predicate Enabled(s: PoolState, op: PoolOp) {
    op.Give? ==> op.chunk in s.live
  }

  function StepPool(count: nat, s: PoolState, op: PoolOp): PoolState
    requires Enabled(s, op)
  {
    match op
    case Take => if s.free == [] then s else PoolState(s.free[1..], s.live + {s.free[0]})
    case Give(chunk) => PoolState([chunk] + s.free, s.live - {chunk})
    case GiveAll => Fresh(count)
  }

  /** The list has no repetition and holds exactly the chunks that are not handed out. */
  ghost predicate Partition(count: nat, s: PoolState) {
    && (forall i, j | 0 <= i < j < |s.free| :: s.free[i] != s.free[j])
    && (forall i | 0 <= i < count :: i in s.free <==> i !in s.live)
    && (forall i | i in s.free || i in s.live :: i < count)
  }

  lemma {:induction false} FreshIsPartition(count: nat)
    ensures Partition(count, Fresh(count))
  {
    var r := Countdown(count);
    forall i | 0 <= i < count
      ensures i in r
    {
      assert r[count - 1 - i] == i;
    }
  }

  lemma {:induction false} StepKeepsPartition(count: nat, s: PoolState, op: PoolOp)
    requires Partition(count, s) && Enabled(s, op)
    ensures Partition(count, StepPool(count, s, op))
  {
    var s' := StepPool(count, s, op);
    match op
    case Take =>
      if s.free != [] {
        assert s.free == [s.free[0]] + s'.free;
        assert forall i | 0 <= i < |s'.free| :: s'.free[i] == s.free[i + 1];
      }
    case Give(chunk) =>
      assert forall i | 0 < i < |s'.free| :: s'.free[i] == s.free[i - 1];
      assert forall x :: x in s'.free <==> x == chunk || x in s.free;
    case GiveAll => FreshIsPartition(count);
  }

  ghost predicate AllEnabled(count: nat, s: PoolState, ops: seq<PoolOp>)
    decreases ops
  {
    ops == [] || (Enabled(s, ops[0]) && AllEnabled(count, StepPool(count, s, ops[0]), ops[1..]))
  }

  ghost function RunPool(count: nat, s: PoolState, ops: seq<PoolOp>): PoolState
    requires AllEnabled(count, s, ops)
    decreases ops
  {
    if ops == [] then s else RunPool(count, StepPool(count, s, ops[0]), ops[1..])
  }

  /** Over every run that frees only live chunks, free and live chunks partition the pool. */
  lemma {:induction false} RunKeepsPartition(count: nat, s: PoolState, ops: seq<PoolOp>)
    requires Partition(count, s) && AllEnabled(count, s, ops)
    ensures Partition(count, RunPool(count, s, ops))
    decreases ops
  {
    if ops != [] {
      StepKeepsPartition(count, s, ops[0]);
      RunKeepsPartition(count, StepPool(count, s, ops[0]), ops[1..]);
    }
  }

  function Takes(n: nat): seq<PoolOp> {
    if n == 0 then [] else [Take] + Takes(n - 1)
  }

  /** n allocations in a row hand out the first n free chunks. */
  lemma {:induction false} TakesDrain(count: nat, s: PoolState, n: nat)
    requires n <= |s.free|
    ensures AllEnabled(count, s, Takes(n))
    ensures RunPool(count, s, Takes(n)) == PoolState(s.free[n..], s.live + set x | x in s.free[..n])
    decreases n
  {
    if n > 0 {
      assert Takes(n)[1..] == Takes(n - 1);
      TakesDrain(count, StepPool(count, s, Take), n - 1);
      assert s.free[1..][n - 1..] == s.free[n..];
      assert s.free[..n] == [s.free[0]] + s.free[1..][..n - 1];
    }
  }

  /** After free_all exactly `count` allocations succeed, all different; the next returns NULL. */
  lemma {:induction false} FreeAllThenDrain(count: nat, s: PoolState)
    ensures AllEnabled(count, StepPool(count, s, GiveAll), Takes(count))
    ensures var s' := RunPool(count, StepPool(count, s, GiveAll), Takes(count));
      s'.free == [] && (forall x: nat :: x in s'.live <==> x < count) && StepPool(count, s', Take) == s'
  {
    TakesDrain(count, Fresh(count), count);
    FreshIsPartition(count);
    var r := Countdown(count);
    assert r[..count] == r && r[count..] == [];
  }

  // ---------- chunks in memory ----------

  function ChunkAt(i: nat, chunk: nat): nat {
    Times(i, chunk)
  }

  lemma {:induction false} ChunksApart(i: nat, j: nat, chunk: nat)
    requires i < j
    ensures ChunkAt(i, chunk) + chunk <= ChunkAt(j, chunk)
  {
    assert (j - i) * chunk >= chunk by {
      if chunk > 0 {
        Scaling(chunk, j - i);
      }
    }
    assert j * chunk == i * chunk + (j - i) * chunk;
  }

  function Address(free: seq<nat>, chunk: nat): int {
    if free == [] then NULL else ChunkAt(free[0], chunk)
  }

  /** The memory holds the list: each free chunk begins with the address of the next one. */
  ghost predicate Linked(m: seq<int>, free: seq<nat>, chunk: nat) {
    free == [] || (At(m, ChunkAt(free[0], chunk)) == Address(free[1..], chunk) && Linked(m, free[1..], chunk))
  }

  /** The chunks of a list are inside the memory. */
  ghost predicate Inside(m: seq<int>, free: seq<nat>, chunk: nat) {
    forall x | x in free :: ChunkAt(x, chunk) + chunk <= |m|
  }

  /** Writing in a chunk that is not on the list leaves the list alone. */
  lemma {:induction false} LinkedFrame(m: seq<int>, m': seq<int>, free: seq<nat>, chunk: nat, x: nat)
    requires chunk > 0 && x !in free && Inside(m, free, chunk)
    requires SameOutside(m, m', ChunkAt(x, chunk), ChunkAt(x, chunk) + chunk)
    ensures Linked(m, free, chunk) <==> Linked(m', free, chunk)
    decreases free
  {
    if free != [] {
      var y := free[0];
      if y < x {
        ChunksApart(y, x, chunk);
      } else {
        ChunksApart(x, y, chunk);
      }
      LinkedFrame(m, m', free[1..], chunk, x);
    }
  }

  class Pool {
    const word: nat
    const mem: array<int>
    const chunkSize: nat
    const count: nat  // buf_len / chunk_size
    var head: int
    ghost var free: seq<nat>
    ghost var live: set<nat>

    ghost predicate Wellformed() {
      1 <= word <= chunkSize && ChunkAt(count, chunkSize) <= mem.Length
    }

    ghost predicate Valid()
      reads this, mem
    {
      && Wellformed() && Partition(count, State())
      && head == Address(free, chunkSize) && Linked(mem[..], free, chunkSize)
    }

    ghost function State(): PoolState
      reads this
    {
      PoolState(free, live)
    }

    lemma {:induction false} ChunkInside(x: nat)
      requires Wellformed() && x < count
      ensures ChunkAt(x, chunkSize) + chunkSize <= mem.Length
    {
      ChunksApart(x, count, chunkSize);
    }

    lemma {:induction false} AllInside(xs: seq<nat>)
      requires Wellformed() && forall x | x in xs :: x < count
      ensures Inside(mem[..], xs, chunkSize)
    {
      forall x | x in xs
        ensures ChunkAt(x, chunkSize) + chunkSize <= mem.Length
      {
        ChunkInside(x);
      }
    }

    /** pool_init() on `length` bytes at `backing`, which stops where the source asserts. */
    constructor (word: nat, limit: nat, backing: nat, length: nat, chunk: nat, alignment: nat)
      requires word >= 1 && IsPowerOfTwo(alignment) && alignment <= limit && limit % alignment == 0
      requires backing + length <= limit && chunk <= limit - alignment
      requires RoundUp(backing, alignment) < limit
      requires RoundUp(backing, alignment) - backing + RoundUp(chunk, alignment) <= length
      requires word <= RoundUp(chunk, alignment)
      ensures Valid() && fresh(mem) && this.word == word
      ensures chunkSize == RoundUp(chunk, alignment)
      ensures mem.Length == length - (RoundUp(backing, alignment) - backing)
      ensures count == mem.Length / chunkSize && State() == Fresh(count)
    {
      var start := AlignForward(backing, alignment, limit);
      AlignForwardWraps(backing, alignment, limit);
      RoundUpIsLeast(backing, alignment);
      if backing > limit - alignment {
        AboveLastMultiple(backing, alignment, limit);
      }
      var bufLen := length - (start - backing);
      var size := AlignForward(chunk, alignment, limit);
      AlignForwardWraps(chunk, alignment, limit);
      this.word := word;
      chunkSize := size;
      count := bufLen / size;
      mem := new int[bufLen];
      new;
      QuotientBelow(bufLen, size);
      FreeAll();
    }

    method Store(a: int, v: int)
      requires word >= 1 && 0 <= a && a + word <= mem.Length
      modifies mem
      ensures mem[..] == StoreWord(old(mem[..]), word, a, v)
    {
      forall i | a < i < a + word {
        mem[i] := 0;
      }
      mem[a] := v;
    }

    /** Push the chunk at address ptr, which is not on the list. */
    method Push(ptr: int, ghost x: nat)
      requires Wellformed() && x < count && x !in free && ptr == ChunkAt(x, chunkSize)
      requires forall y | y in free :: y < count
      requires head == Address(free, chunkSize) && Linked(mem[..], free, chunkSize)
      modifies `head, `free, mem
      ensures free == [x] + old(free) && head == Address(free, chunkSize) && Linked(mem[..], free, chunkSize)
      ensures SameOutside(old(mem[..]), mem[..], ptr, ptr + chunkSize)
    {
      ghost var m := mem[..];
      ChunkInside(x);
      AllInside(free);
      Store(ptr, head);
      LinkedFrame(m, mem[..], free, chunkSize, x);
      head := ptr;
      free := [x] + free;
      assert free[1..] == old(free);
    }

    /** pool_free_all(): from any state, every chunk is on the list once. */
    method FreeAll()
      requires Wellformed()
      modifies `head, `free, `live, mem
      ensures Valid() && State() == Fresh(count)
    {
      head := NULL;
      free, live := [], {};
      for i := 0 to count
        invariant free == Countdown(i)
        invariant head == Address(free, chunkSize) && Linked(mem[..], free, chunkSize)
        invariant live == {}
      {
        Push(ChunkAt(i, chunkSize), i);
      }
      FreshIsPartition(count);
    }

    /** pool_alloc(). */
    method Alloc() returns (ptr: int)
      requires Valid()
      modifies `head, `free, `live, mem
      ensures Valid() && State() == StepPool(count, old(State()), Take)
      ensures ptr == NULL <==> old(free) == []
      ensures ptr != NULL ==>
        var x := old(free)[0];
        && ptr == ChunkAt(x, chunkSize) && ptr + chunkSize <= mem.Length && x !in old(live)
        && (forall i | ptr <= i < ptr + chunkSize :: mem[i] == 0)
        && SameOutside(old(mem[..]), mem[..], ptr, ptr + chunkSize)
    {
      var node := head;
      if node == NULL {
        return NULL;
      }
      ghost var m, x := mem[..], free[0];
      StepKeepsPartition(count, State(), Take);
      ChunkInside(x);
      head := mem[head];
      free, live := free[1..], live + {x};
      AllInside(free);
      forall i | node <= i < node + chunkSize {
        mem[i] := 0;
      }
      assert x !in free;
      LinkedFrame(m, mem[..], free, chunkSize, x);
      ptr := node;
    }

    /** pool_free() of NULL or of the live chunk x; the source's two checks on ptr then pass. */
    method Free(ptr: int, ghost x: nat)
      requires Valid() && (ptr == NULL || (x in live && ptr == ChunkAt(x, chunkSize)))
      modifies `head, `free, `live, mem
      ensures Valid()
      ensures ptr == NULL ==> State() == old(State()) && mem[..] == old(mem[..])
      ensures ptr != NULL ==> State() == StepPool(count, old(State()), Give(x))
      ensures ptr != NULL ==> SameOutside(old(mem[..]), mem[..], ptr, ptr + chunkSize)
    {
      if ptr == NULL {
        return;
      }
      ChunkInside(x);
      ChunkAligned(x, chunkSize);
      assert 0 <= ptr < mem.Length && ptr % chunkSize == 0;
      StepKeepsPartition(count, State(), Give(x));
      Push(ptr, x);
      live := live - {x};
    }
  }

  lemma {:induction false} ChunkAligned(x: nat, chunk: nat)
    requires chunk > 0
    ensures ChunkAt(x, chunk) % chunk == 0
  {
    ModUnique(ChunkAt(x, chunk), chunk, x, 0);
  }

  lemma {:induction false} QuotientBelow(x: nat, d: nat)
    requires d > 0
    ensures (x / d) * d <= x
  {
  }

  // ---------- kernel handles ----------

  const KERNEL_BYTES: nat := 320  // sizeof(strela_word) * STRELA_KERNEL_SIZE
  const KERNELS: nat := 128

  /** strela_kernel_alloc(): the handle of a chunk address. */
  function HandleOf(ptr: nat): nat { ptr / KERNEL_BYTES }

  /** strela_kernel_set(): the address of a handle. */
  function KernelAddress(handle: nat): nat { handle * KERNEL_BYTES }

  /** Handles 0..127 and the chunks of the kernel pool are in one-to-one correspondence. */
  lemma {:induction false} HandlesAreExact(ptr: nat, handle: nat)
    requires handle < KERNELS
    ensures HandleOf(KernelAddress(handle)) == handle && KernelAddress(handle) + KERNEL_BYTES <= KERNELS * KERNEL_BYTES
    ensures ptr % KERNEL_BYTES == 0 && ptr < KERNELS * KERNEL_BYTES ==>
      KernelAddress(HandleOf(ptr)) == ptr && HandleOf(ptr) < KERNELS
  {
  }
}
