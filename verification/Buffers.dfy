/**
 Buffers of lib/strela.c: handles into the tensor area, the cache ranges that flush and
 invalidate pass to the driver, and the driver's check of them.

 A buffer's address is its offset from the start of the mapped area, `tensors_bo_map`.
 */
module Buffers {
  import opened Bits
  import opened FreeListSpec
  import opened FreeListMemory
  import opened FreeListSteps
  import opened FreeListRuns
  import SizeLimits
  import Binding

  const WORD: nat := 4                     // sizeof(strela_word)
  const LINE: nat := 64                    // CACHELINE_SIZE
  const LINE_WORDS: nat := 16
  const TENSOR_BYTES: nat := 1024 * 1024 * 50
  const TENSOR_WORDS: nat := 1024 * 256 * 50

  /** struct strela_buffer. */
  datatype Buffer = Buffer(valid: bool, offsetWords: nat, sizeWords: nat)

  const NO_BUFFER := Buffer(false, 0, 0)

  /** The free list over the tensor area; the mapping starts at a page, so at a cache line. */
  ghost predicate TensorArea(c: Area) {
    && c.Valid() && c.data % LINE == 0 && c.size == TENSOR_BYTES
    && SizeType(c.limit)
  }

  /** The values of a size_t, of at least 32 bits. */
  ghost predicate SizeType(limit: nat) {
    IsPowerOfTwo(limit) && 0x1_0000_0000 <= limit
  }

  lemma {:induction false} LineIsPower()
    ensures IsPowerOfTwo(LINE) && IsPowerOfTwo(LINE_WORDS)
  {
    assert Pow2(4) == LINE_WORDS && Pow2(6) == LINE;
    PowerPassesTest(4);
    PowerPassesTest(6);
  }

  lemma {:induction false} LineDivides(a: nat)
    requires IsPowerOfTwo(a) && LINE <= a
    ensures a % LINE == 0
  {
    LineIsPower();
    PowersDivide(LINE, a);
  }

  // ---------- what backs a buffer ----------

  /** b is the buffer that was handed out as the live block t. */
  ghost predicate Backs(c: Area, h: Heap, t: Tile, b: Buffer)
    requires c.Valid()
  {
    && t in LiveSet(h.tiles) && LINE <= t.align
    && b.valid && t.ptr == WORD * b.offsetWords && t.orig == WORD * b.sizeWords
  }

  /** strela_buffer_alloc() after the allocator answered with ptr. */
  function HandleOf(ptr: nat, sizeWords: nat): Buffer {
    Buffer(true, ptr / WORD, sizeWords)
  }

  /** The payload begins and, rounded to whole cache lines, ends inside its tile. */
  lemma {:induction false} PayloadLines(c: Area, h: Heap, t: Tile)
    requires TensorArea(c) && Good(c, h) && t in LiveSet(h.tiles) && LINE <= t.align
    ensures t.ptr % LINE == 0 && t.start + c.HeaderSize() <= t.ptr
    ensures t.ptr + RoundUp(t.orig, LINE) <= t.End() <= c.size
  {
    assert TileOk(c, t);
    var room := RoundUp(Max(t.orig, c.NodeSize()), t.align);
    LineDivides(t.align);
    DividesTransitive(LINE, t.align, c.data + t.ptr);
    MultiplesApart(c.data + t.ptr, c.data, LINE);
    RoundUpIsLeast(Max(t.orig, c.NodeSize()), t.align);
    DividesTransitive(LINE, t.align, room);
    RoundUpIsLeast(t.orig, LINE);
    TilesDisjoint(h.tiles, 0);
  }

  lemma {:induction false} NewBlock(c: Area, live: set<Tile>, live': set<Tile>, ptr: nat, size: nat) returns (t: Tile)
    requires c.Valid() && HandsOut(c, live, live', ptr, size, LINE)
    ensures t in live' && t !in live && t.Live? && t.ptr == ptr && t.orig == size && LINE <= t.align
  {
    t :| t in live' && IsNewBlock(c, live, t, size, LINE) && t.ptr == ptr;
  }

  lemma {:induction false} NewBufferBlock(c: Area, live: set<Tile>, h': Heap, ptr: nat, size: nat) returns (t: Tile)
    requires TensorArea(c) && Good(c, h') && HandsOut(c, live, LiveSet(h'.tiles), ptr, size, LINE)
    ensures t in LiveSet(h'.tiles) && t !in live && t.ptr == ptr && t.orig == size && LINE <= t.align
    ensures t.ptr % WORD == 0
  {
    t := NewBlock(c, live, LiveSet(h'.tiles), ptr, size);
    PayloadLines(c, h', t);
    LineStartsWord(ptr);
  }

  lemma {:induction false} LineStartsWord(p: nat)
    requires p % LINE == 0
    ensures p % WORD == 0
  {
  }

  /** What strela_buffer_alloc() returns is backed by the block the allocator handed out. */
  lemma {:induction false} AllocatedIsBacked(c: Area, h: Heap, h': Heap, ptr: nat, sizeWords: nat)
    requires TensorArea(c) && Good(c, h')
    requires HandsOut(c, LiveSet(h.tiles), LiveSet(h'.tiles), ptr, WORD * sizeWords, LINE)
    ensures exists t :: Backs(c, h', t, HandleOf(ptr, sizeWords)) && t !in LiveSet(h.tiles)
  {
    var t := NewBufferBlock(c, LiveSet(h.tiles), h', ptr, WORD * sizeWords);
    BacksIf(c, h', t, sizeWords);
  }

  lemma {:induction false} BacksIf(c: Area, h: Heap, t: Tile, sizeWords: nat)
    requires c.Valid() && t in LiveSet(h.tiles) && LINE <= t.align && t.ptr % WORD == 0 && t.orig == WORD * sizeWords
    ensures Backs(c, h, t, HandleOf(t.ptr, sizeWords))
  {
  }

  // ---------- isolation ----------

  /** [lo, hi) lies in the payload of t: clear of its header and of every other tile. */
  ghost predicate Private(c: Area, h: Heap, t: Tile, lo: nat, hi: nat) {
    && t.Live? && t.ptr <= lo && hi <= t.End() <= c.size
    && t.start <= t.ptr - c.HeaderSize()
    && forall u | u in h.tiles && u != t :: hi <= u.start || u.End() <= lo
  }

  /** No cache line that holds a word of a buffer holds anything else: header, node or buffer. */
  lemma {:induction false} LinesArePrivate(c: Area, h: Heap, t: Tile, b: Buffer)
    requires TensorArea(c) && Good(c, h) && Backs(c, h, t, b)
    ensures t.ptr % LINE == 0 && Private(c, h, t, t.ptr, t.ptr + RoundUp(t.orig, LINE))
  {
    PayloadLines(c, h, t);
    TilesDisjoint(h.tiles, 0);
  }

  // ---------- what is passed to the driver ----------

  datatype Sync =
    | BadArg                               // the sticky error is set
    | Nothing                              // no words, no ioctl
    | Range(offset: nat, length: nat)      // the bytes named in DRM_IOCTL_STRELA_GEM_SYNC

  /** strela_buffer_sync() and strela_sync(), on a device without an error. */
  function BufferSync(limit: nat, b: Buffer, offset: nat, count: nat): Sync
    requires limit > 0
  {
    if !b.valid || offset > b.sizeWords || count > b.sizeWords - offset
       || b.offsetWords > TENSOR_WORDS || b.sizeWords > TENSOR_WORDS - b.offsetWords
    then BadArg
    else if count == 0 then Nothing
    else Range((b.offsetWords + offset) % limit * WORD % limit, count * WORD % limit)
  }

  /** ~(size_t)(CACHELINE_WORDS - 1). */
  function LineMask(limit: nat): nat
    requires limit >= LINE_WORDS
  {
    limit - LINE_WORDS
  }

  function FlushStart(limit: nat, offset: nat): nat
    requires limit >= LINE_WORDS
  {
    BitAnd(offset, LineMask(limit))
  }

  function FlushEnd(limit: nat, offset: nat, count: nat): nat
    requires limit >= LINE_WORDS
  {
    BitAnd((offset + count + LINE_WORDS - 1) % limit, LineMask(limit))
  }

  /** strela_buffer_flush(); subtraction wraps. */
  function Flush(limit: nat, b: Buffer, offset: nat, count: nat): Sync
    requires limit >= LINE_WORDS
  {
    if count == 0 then Nothing
    else
      var start := FlushStart(limit, offset);
      BufferSync(limit, b, start, (FlushEnd(limit, offset, count) - start) % limit)
  }

  /** The alignment check of strela_buffer_inval(). */
  predicate Misaligned(limit: nat, offset: nat, count: nat)
    requires limit > 0
  {
    offset * WORD % limit % LINE != 0 || count * WORD % limit % LINE != 0
  }

  /** strela_buffer_inval(): the error it sets itself makes strela_buffer_sync() do nothing. */
  function Inval(limit: nat, b: Buffer, offset: nat, count: nat): Sync
    requires limit > 0
  {
    if Misaligned(limit, offset, count) then BadArg
    else BufferSync(limit, b, offset, count)
  }

  /** Masking the low bits off rounds down. */
  lemma {:induction false} MaskRoundsDown(p: nat, j: nat, k: nat)
    requires j <= k && p < Pow2(k)
    ensures Pow2(j) <= Pow2(k) && BitAnd(p, Pow2(k) - Pow2(j)) == p - p % Pow2(j)
  {
    if j == 0 {
      AndWithAllOnes(p, k);
      ModUnique(p, Pow2(k), 0, p);
    } else {
      var m, n := Pow2(j - 1), Pow2(k - 1);
      MaskRoundsDown(p / 2, j - 1, k - 1);
      ModOfDouble(p, m);
      assert (2 * n - 2 * m) / 2 == n - m && (2 * n - 2 * m) % 2 == 0;
      if n == m {
        ModUnique(p, 2 * n, 0, p);
      }
    }
  }

  lemma {:induction false} LineMaskRoundsDown(limit: nat, p: nat)
    requires SizeType(limit) && p < limit
    ensures BitAnd(p, LineMask(limit)) == p - p % LINE_WORDS
  {
    var k := Log2(limit);
    assert Pow2(4) == LINE_WORDS;
    if k < 4 {
      Pow2Mono(k, 4);
    }
    MaskRoundsDown(p, 4, k);
  }

  lemma {:induction false} LimitIsLines(limit: nat)
    requires SizeType(limit)
    ensures limit % LINE == 0
  {
    LineDivides(limit);
  }

  /** A size_t product by the word size is line-aligned exactly when the word count is. */
  lemma {:induction false} AlignedWords(limit: nat, x: nat)
    requires SizeType(limit)
    ensures x * WORD % limit % LINE == 0 <==> x % LINE_WORDS == 0
  {
    LimitIsLines(limit);
    var y, r := WholeLines(limit, x * WORD);
    LinesInWords(x, y, r);
  }

  lemma {:induction false} WholeLines(limit: nat, x: nat) returns (y: nat, r: nat)
    requires limit > 0 && limit % LINE == 0
    ensures x == y + r && y % LINE == 0 && r == x % limit
  {
    var q := x / limit;
    y, r := limit * q, x % limit;
    MultipleOfLines(limit, q);
  }

  lemma {:induction false} MultipleOfLines(limit: nat, q: nat)
    requires limit % LINE == 0
    ensures limit * q % LINE == 0
  {
    var n := limit / LINE;
    assert limit * q == LINE * (n * q);
    ModUnique(limit * q, LINE, n * q, 0);
  }

  lemma {:induction false} LinesInWords(x: nat, y: nat, r: nat)
    requires x * WORD == y + r && y % LINE == 0
    ensures r % LINE == 0 <==> x % LINE_WORDS == 0
  {
  }

  /** Where an accepted request leads: no wrap is possible any more. */
  lemma {:induction false} SyncIsExact(limit: nat, b: Buffer, offset: nat, count: nat)
    requires SizeType(limit)
    ensures var s := BufferSync(limit, b, offset, count);
      && (s.BadArg? <==> !(b.valid && offset + count <= b.sizeWords && b.offsetWords + b.sizeWords <= TENSOR_WORDS))
      && (s.Range? ==> s == Range(WORD * (b.offsetWords + offset), WORD * count))
  {
    if BufferSync(limit, b, offset, count).Range? {
      ModUnique(b.offsetWords + offset, limit, 0, b.offsetWords + offset);
      ModUnique((b.offsetWords + offset) * WORD, limit, 0, (b.offsetWords + offset) * WORD);
      ModUnique(count * WORD, limit, 0, count * WORD);
    }
  }

  /** The difference of two line-aligned size_t values is line-aligned, even when it wraps. */
  lemma {:induction false} LineDifference(limit: nat, start: nat, end: nat)
    requires SizeType(limit) && start < limit && end < limit && start % LINE_WORDS == 0 && end % LINE_WORDS == 0
    ensures (end - start) % limit % LINE_WORDS == 0
    ensures (end - start) % limit == if start <= end then end - start else end - start + limit
  {
    LimitIsLines(limit);
    LineDifferences(limit, start, end);
    if end >= start {
      ModUnique(end - start, limit, 0, end - start);
    } else {
      ModUnique(end - start, limit, -1, end - start + limit);
    }
  }

  lemma {:induction false} LineDifferences(limit: nat, start: nat, end: nat)
    requires limit % LINE == 0 && start % LINE_WORDS == 0 && end % LINE_WORDS == 0
    ensures (end - start) % LINE_WORDS == 0 && (end - start + limit) % LINE_WORDS == 0
  {
    var i, j, n := end / LINE_WORDS, start / LINE_WORDS, limit / LINE;
    ModUnique(end - start, LINE_WORDS, i - j, 0);
    ModUnique(end - start + limit, LINE_WORDS, i - j + 4 * n, 0);
  }

  lemma {:induction false} RoundUpByMask(x: nat)
    ensures RoundUp(x, LINE_WORDS) == (x + LINE_WORDS - 1) - (x + LINE_WORDS - 1) % LINE_WORDS
  {
  }

  lemma {:induction false} FlushStartBounds(limit: nat, offset: nat)
    requires SizeType(limit) && offset < limit
    ensures var start := FlushStart(limit, offset); start % LINE_WORDS == 0 && offset - LINE_WORDS < start <= offset
  {
    LineMaskRoundsDown(limit, offset);
  }

  lemma {:induction false} FlushEndBounds(limit: nat, offset: nat, count: nat)
    requires SizeType(limit) && offset < limit && count < limit
    ensures var end := FlushEnd(limit, offset, count);
      && end % LINE_WORDS == 0 && end < limit
      && (offset + count + LINE_WORDS - 1 < limit ==> end == RoundUp(offset + count, LINE_WORDS))
  {
    var sum := offset + count + LINE_WORDS - 1;
    var low := Remainder(sum, limit);
    LineMaskRoundsDown(limit, low);
    LowMultiple(low);
    RoundUpByMask(offset + count);
  }

  lemma {:induction false} Remainder(x: nat, d: nat) returns (r: nat)
    requires d > 0
    ensures r == x % d && r < d && (x < d ==> r == x)
  {
    r := x % d;
    if x < d {
      ModUnique(x, d, 0, x);
    }
  }

  lemma {:induction false} LowMultiple(x: nat)
    ensures (x - x % LINE_WORDS) % LINE_WORDS == 0
  {
  }

  lemma {:induction false} FlushBounds(limit: nat, offset: nat, count: nat)
    requires SizeType(limit) && offset < limit && count < limit
    ensures var start, end := FlushStart(limit, offset), FlushEnd(limit, offset, count);
      && start % LINE_WORDS == 0 && start <= offset
      && (end - start) % limit % LINE_WORDS == 0
      && (offset + count + LINE_WORDS - 1 < limit ==>
            end == RoundUp(offset + count, LINE_WORDS) && (end - start) % limit == end - start)
  {
    var start, end := FlushStart(limit, offset), FlushEnd(limit, offset, count);
    FlushStartBounds(limit, offset);
    FlushEndBounds(limit, offset, count);
    LineDifference(limit, start, end);
    RoundUpByMask(offset + count);
  }

  /** What the ranges of flush and invalidate are for: whole lines of this buffer and no other byte. */
  ghost predicate Isolated(c: Area, h: Heap, t: Tile, s: Sync) {
    s.Range? ==>
      && t.Live? && s.offset % LINE == 0 && s.length % LINE == 0 && s.length > 0
      && s.offset + s.length <= t.ptr + t.orig
      && Private(c, h, t, s.offset, s.offset + s.length)
  }

  lemma {:induction false} SyncIsIsolated(c: Area, h: Heap, t: Tile, b: Buffer, offset: nat, count: nat)
    requires TensorArea(c) && Good(c, h) && Backs(c, h, t, b)
    requires offset % LINE_WORDS == 0 && count % LINE_WORDS == 0
    ensures Isolated(c, h, t, BufferSync(c.limit, b, offset, count))
  {
    SyncIsExact(c.limit, b, offset, count);
    LinesArePrivate(c, h, t, b);
    RoundUpIsLeast(t.orig, LINE);
    if BufferSync(c.limit, b, offset, count).Range? {
      LinesInBytes(t.ptr, offset, count);
      NarrowPrivate(c, h, t, t.ptr + RoundUp(t.orig, LINE), t.ptr + WORD * offset, t.ptr + WORD * (offset + count));
    }
  }

  lemma {:induction false} LinesInBytes(ptr: nat, offset: nat, count: nat)
    requires ptr % LINE == 0 && offset % LINE_WORDS == 0 && count % LINE_WORDS == 0
    ensures (ptr + WORD * offset) % LINE == 0 && (WORD * count) % LINE == 0
  {
  }

  lemma {:induction false} NarrowPrivate(c: Area, h: Heap, t: Tile, top: nat, lo: nat, hi: nat)
    requires t.Live? && Private(c, h, t, t.ptr, top) && t.ptr <= lo < hi <= top
    ensures Private(c, h, t, lo, hi)
  {
  }

  /** Every flush, whatever its arguments, touches whole lines of its own buffer only. */
  lemma {:induction false} FlushIsIsolated(c: Area, h: Heap, t: Tile, b: Buffer, offset: nat, count: nat)
    requires TensorArea(c) && Good(c, h) && Backs(c, h, t, b) && offset < c.limit && count < c.limit
    ensures Isolated(c, h, t, Flush(c.limit, b, offset, count))
  {
    if count != 0 {
      FlushBounds(c.limit, offset, count);
      var start := FlushStart(c.limit, offset);
      SyncIsIsolated(c, h, t, b, start, (FlushEnd(c.limit, offset, count) - start) % c.limit);
    }
  }

  /** So does every invalidate, which loses no neighbour's writes. */
  lemma {:induction false} InvalIsIsolated(c: Area, h: Heap, t: Tile, b: Buffer, offset: nat, count: nat)
    requires TensorArea(c) && Good(c, h) && Backs(c, h, t, b)
    ensures Isolated(c, h, t, Inval(c.limit, b, offset, count))
  {
    AlignedWords(c.limit, offset);
    AlignedWords(c.limit, count);
    if offset % LINE_WORDS == 0 && count % LINE_WORDS == 0 {
      SyncIsIsolated(c, h, t, b, offset, count);
    }
  }

  /** The words [offset, offset + count) of the buffer are in the range. */
  predicate Covers(b: Buffer, s: Sync, offset: nat, count: nat) {
    s.Range? && s.offset <= WORD * (b.offsetWords + offset) && WORD * (b.offsetWords + offset + count) <= s.offset + s.length
  }

  /**
   A flush of some words that sets no error has flushed all of them, exactly when rounding
   their end up to a line does not wrap. Otherwise it may do nothing and report success.
   */
  lemma {:induction false} FlushCoversIff(limit: nat, b: Buffer, offset: nat, count: nat)
    requires SizeType(limit) && offset < limit && 0 < count < limit
    requires !Flush(limit, b, offset, count).BadArg?
    ensures Covers(b, Flush(limit, b, offset, count), offset, count) <==> offset + count + LINE_WORDS - 1 < limit
  {
    FlushBounds(limit, offset, count);
    var start, end := FlushStart(limit, offset), FlushEnd(limit, offset, count);
    SyncIsExact(limit, b, start, (end - start) % limit);
    if offset + count + LINE_WORDS - 1 < limit {
      RoundUpIsLeast(offset + count, LINE_WORDS);
    }
  }

  /** Which flushes are accepted: those whose last line ends inside the buffer's size. */
  lemma {:induction false} FlushAcceptedIff(limit: nat, b: Buffer, offset: nat, count: nat)
    requires SizeType(limit) && b.valid && b.offsetWords + b.sizeWords <= TENSOR_WORDS
    requires 0 < count && offset + count + LINE_WORDS - 1 < limit
    ensures Flush(limit, b, offset, count).Range? <==> RoundUp(offset + count, LINE_WORDS) <= b.sizeWords
    ensures Flush(limit, b, offset, count).BadArg? <==> b.sizeWords < RoundUp(offset + count, LINE_WORDS)
    ensures Flush(limit, b, offset, 0).Nothing?
  {
    FlushBounds(limit, offset, count);
    RoundUpIsLeast(offset + count, LINE_WORDS);
    SyncIsExact(limit, b, FlushStart(limit, offset), FlushEnd(limit, offset, count) - FlushStart(limit, offset));
  }

  /** An accepted flush names exactly the lines that hold the words asked for. */
  lemma {:induction false} FlushRangeIs(limit: nat, b: Buffer, offset: nat, count: nat)
    requires SizeType(limit) && 0 < count && offset + count + LINE_WORDS - 1 < limit && Flush(limit, b, offset, count).Range?
    ensures var first, last := offset - offset % 16, RoundUp(offset + count, 16);
      Flush(limit, b, offset, count) == Range(4 * (b.offsetWords + first), 4 * (last - first))
  {
    FlushBounds(limit, offset, count);
    LineMaskRoundsDown(limit, offset);
    SyncIsExact(limit, b, FlushStart(limit, offset), FlushEnd(limit, offset, count) - FlushStart(limit, offset));
  }

  /** Which invalidates are accepted, and that they name exactly the words asked for. */
  lemma {:induction false} InvalAcceptedIff(limit: nat, b: Buffer, offset: nat, count: nat)
    requires SizeType(limit) && b.valid && b.offsetWords + b.sizeWords <= TENSOR_WORDS
    ensures var s := Inval(limit, b, offset, count);
      && (!s.BadArg? <==> offset % LINE_WORDS == 0 && count % LINE_WORDS == 0 && offset + count <= b.sizeWords)
      && (s.Range? ==> s == Range(WORD * (b.offsetWords + offset), WORD * count))
  {
    AlignedWords(limit, offset);
    AlignedWords(limit, count);
    SyncIsExact(limit, b, offset, count);
  }

  /** The last words of a buffer whose size is not a multiple of a line can never be flushed. */
  lemma {:induction false} LastPartialLineIsRefused(limit: nat, b: Buffer, offset: nat, count: nat)
    requires SizeType(limit) && b.valid && b.offsetWords + b.sizeWords <= TENSOR_WORDS
    requires 0 < count && offset + count == b.sizeWords && b.sizeWords % LINE_WORDS != 0
    ensures Flush(limit, b, offset, count).BadArg?
  {
    FlushAcceptedIff(limit, b, offset, count);
    RoundUpIsLeast(offset + count, LINE_WORDS);
    FlushBounds(limit, offset, count);
  }

  /** A wrapped flush: it asks for SIZE_MAX words, does nothing and sets no error. */
  lemma {:induction false} WrappedFlushDoesNothing(limit: nat, b: Buffer)
    requires SizeType(limit) && b.valid && b.offsetWords + b.sizeWords <= TENSOR_WORDS
    ensures Flush(limit, b, 0, limit - 1).Nothing?
  {
    LineMaskRoundsDown(limit, 0);
    LineMaskRoundsDown(limit, 14);
    ModUnique(limit + 14, limit, 1, 14);
    ModUnique(0, limit, 0, 0);
  }

  // ---------- the driver's side ----------

  /** strela_gem_sync_ioctl(): the range and alignment checks. */
  function GemSync(objSize: nat, align: nat, offset: nat, length: nat): int
    requires align > 0
  {
    if offset > objSize || length > objSize - offset then -Binding.EINVAL
    else if offset % align != 0 || length % align != 0 then -Binding.EINVAL
    else 0
  }

  /** The driver accepts exactly the aligned ranges inside the object. */
  lemma {:induction false} GemSyncIff(objSize: nat, align: nat, offset: nat, length: nat)
    requires align > 0
    ensures GemSync(objSize, align, offset, length) == 0 <==>
      offset + length <= objSize && offset % align == 0 && length % align == 0
    ensures GemSync(objSize, align, offset, length) == 0 || GemSync(objSize, align, offset, length) == -Binding.EINVAL
  {
  }

  /** The driver accepts every range the library passes down, if its cache alignment divides 64. */
  lemma {:induction false} DriverAccepts(c: Area, h: Heap, t: Tile, s: Sync, align: nat)
    requires TensorArea(c) && s.Range? && Isolated(c, h, t, s) && align > 0 && LINE % align == 0
    ensures GemSync(TENSOR_BYTES, align, s.offset, s.length) == 0
  {
    DividesTransitive(align, LINE, s.offset);
    DividesTransitive(align, LINE, s.length);
  }

  // ---------- pointers and handles ----------

  /** strela_buffer_to_ptr(). */
  function ToPtr(limit: nat, b: Buffer): nat
    requires limit > 0
  {
    b.offsetWords * WORD % limit
  }

  datatype FromPtrResult = Found(buffer: Buffer) | Aborted

  /** strela_buffer_from_ptr(): it reads the header in front of ptr. */
  function FromPtr(c: Area, m: seq<int>, ptr: int): FromPtrResult {
    if 0 <= ptr < TENSOR_BYTES then
      var orig := At(m, ptr - c.HeaderSize());
      if orig < 0 || orig % WORD != 0 then Aborted else Found(Buffer(true, ptr / WORD, orig / WORD))
    else Found(NO_BUFFER)
  }

  /** The address of a live buffer leads back to the same handle. */
  lemma {:induction false} PtrRoundTrip(c: Area, m: seq<int>, head: int, h: Heap, t: Tile, b: Buffer)
    requires TensorArea(c) && Good(c, h) && Image(c, m, head, h.tiles) && Backs(c, h, t, b)
    ensures FromPtr(c, m, ToPtr(c.limit, b)) == Found(b)
  {
    HeaderHolds(c, m, head, h, t);
    PtrInArea(c, h, t);
    ToPtrIs(c.limit, b);
  }

  lemma {:induction false} ToPtrIs(limit: nat, b: Buffer)
    requires WORD * b.offsetWords < limit
    ensures ToPtr(limit, b) == WORD * b.offsetWords
  {
    ModUnique(b.offsetWords * WORD, limit, 0, b.offsetWords * WORD);
  }

  lemma {:induction false} PtrInArea(c: Area, h: Heap, t: Tile)
    requires c.Valid() && Good(c, h) && t in LiveSet(h.tiles)
    ensures t.ptr < c.size <= c.limit
  {
    assert TileOk(c, t);
    PtrInside(c, t);
    TilesDisjoint(h.tiles, 0);
  }

  lemma {:induction false} HeaderHolds(c: Area, m: seq<int>, head: int, h: Heap, t: Tile)
    requires Image(c, m, head, h.tiles) && t in LiveSet(h.tiles)
    ensures At(m, t.ptr - c.HeaderSize()) == t.orig
  {
    var k :| 0 <= k < |h.tiles| && h.tiles[k] == t;
    StoredAt(c, m, h.tiles, k);
  }

  /** An operation that does not free ptr, or everything, keeps its block. */
  lemma {:induction false} StepSpares(c: Area, h: Heap, op: Op, t: Tile)
    requires c.Valid() && Good(c, h) && Allowed(c, h, op) && t in LiveSet(h.tiles)
    requires op != DoFree(t.ptr) && !op.DoFreeAll?
    ensures Good(c, Step(c, h, op)) && t in LiveSet(Step(c, h, op).tiles)
  {
    StepRefines(c, h, op);
  }

  // ---------- the sizes strela_buffer_alloc() accepts ----------

  /** size_words * sizeof (strela_word), in a size_t. */
  function SizeBytes(limit: nat, sizeWords: nat): nat
    requires limit > 0
  {
    sizeWords * WORD % limit
  }

  /** The check that is meant to catch a product that wrapped. */
  predicate SizeAccepted(limit: nat, sizeWords: nat)
    requires limit > 0
  {
    SizeBytes(limit, sizeWords) >= sizeWords
  }

  lemma {:induction false} SizeBytesIs(limit: nat, sizeWords: nat)
    requires limit > 0 && sizeWords < limit
    ensures SizeBytes(limit, sizeWords) ==
      if 4 * sizeWords < limit then 4 * sizeWords
      else if 2 * sizeWords < limit then 4 * sizeWords - limit
      else if 4 * sizeWords < 3 * limit then 4 * sizeWords - 2 * limit
      else 4 * sizeWords - 3 * limit
  {
    var x := sizeWords * WORD;
    if 4 * sizeWords < limit {
      ModUnique(x, limit, 0, x);
    } else if 2 * sizeWords < limit {
      ModUnique(x, limit, 1, x - limit);
    } else if 4 * sizeWords < 3 * limit {
      ModUnique(x, limit, 2, x - 2 * limit);
    } else {
      ModUnique(x, limit, 3, x - 3 * limit);
    }
  }

  /** The check accepts a quarter of all sizes rightly, and two more intervals of products that wrapped. */
  lemma {:induction false} SizeAcceptedIff(limit: nat, sizeWords: nat)
    requires limit > 0 && sizeWords < limit
    ensures SizeAccepted(limit, sizeWords) <==>
      || 4 * sizeWords < limit
      || (limit <= 3 * sizeWords && 2 * sizeWords < limit)
      || (2 * limit <= 3 * sizeWords && 4 * sizeWords < 3 * limit)
  {
    SizeBytesIs(limit, sizeWords);
  }

  /** On every word size the check lets a product through that has wrapped. */
  lemma {:induction false} WrappedSizeIsAccepted(limit: nat)
    requires SizeType(limit)
    ensures var sizeWords := limit / 3 + 1;
      sizeWords < limit && SizeAccepted(limit, sizeWords) && sizeWords * WORD >= limit
  {
    SizeAcceptedIff(limit, limit / 3 + 1);
  }

  // ---------- the block behind an accepted request ----------

  /** The tensor area on an ABI whose max_align_t is no larger than a cache line. */
  ghost predicate OrdinaryArea(c: Area) {
    TensorArea(c) && c.maxAlign <= LINE
  }

  /** The area's blocks are far smaller than a size_t can count. */
  lemma {:induction false} IsRequest(c: Area, size: nat)
    requires OrdinaryArea(c) && size < c.limit
    ensures SizeLimits.Request(c, size, LINE) && Alignment(c, LINE) == LINE
    ensures c.HeaderSize() + 2 * LINE + TENSOR_BYTES < c.limit
  {
    LimitIsLines(c.limit);
    LineIsPower();
  }

  /** A node the search may grant for a buffer of this many words. */
  ghost predicate GrantsBuffer(c: Area, t: Tile, sizeWords: nat)
    requires OrdinaryArea(c) && sizeWords < c.limit
  {
    var size := SizeBytes(c.limit, sizeWords);
    IsRequest(c, size);
    SizeAccepted(c.limit, sizeWords) && SizeLimits.Granted(c, t, size, LINE)
  }

  /** The bytes behind the handle. */
  ghost function BufferRoom(c: Area, t: Tile, sizeWords: nat): int
    requires OrdinaryArea(c) && sizeWords < c.limit
  {
    var size := SizeBytes(c.limit, sizeWords);
    IsRequest(c, size);
    SizeLimits.Room(c, t, size, LINE)
  }

  /** The product, the rounding and the sum with the padding all fit a size_t. */
  ghost predicate NothingWraps(c: Area, t: Tile, sizeWords: nat)
    requires OrdinaryArea(c)
  {
    WORD * sizeWords < c.limit && (IsRequest(c, WORD * sizeWords); SizeLimits.Need(c, t.start, WORD * sizeWords, LINE) < c.limit)
  }

  lemma {:induction false} SmallNeed(c: Area, t: Tile, size: nat)
    requires OrdinaryArea(c) && TileOk(c, t) && size <= TENSOR_BYTES
    ensures SizeLimits.Request(c, size, LINE) && SizeLimits.Need(c, t.start, size, LINE) < c.limit
  {
    IsRequest(c, size);
    SizeLimits.PaddingBounds(c, t, LINE);
    RoundUpIsLeast(Max(size, c.NodeSize()), LINE);
  }

  /** Nothing wraps for a granted buffer just when its words are no more than the area has. */
  lemma {:induction false} NothingWrapsIff(c: Area, t: Tile, sizeWords: nat)
    requires OrdinaryArea(c) && sizeWords < c.limit && TileOk(c, t) && t.size <= c.size && GrantsBuffer(c, t, sizeWords)
    ensures NothingWraps(c, t, sizeWords) <==> sizeWords <= TENSOR_WORDS
  {
    if sizeWords <= TENSOR_WORDS {
      SmallNeed(c, t, WORD * sizeWords);
    } else if NothingWraps(c, t, sizeWords) {
      SizeBytesIs(c.limit, sizeWords);
      IsRequest(c, WORD * sizeWords);
      SizeLimits.RequiredIs(c, t, WORD * sizeWords, LINE);
      RoundUpIsLeast(Max(WORD * sizeWords, c.NodeSize()), LINE);
    }
  }

  /**
   The block behind a handle that was granted has the handle's bytes if and only if neither the
   product nor the rounding nor the sum with the padding wrapped, which is if and only if the
   size asked for is no more than the whole area.
   */
  lemma {:induction false} BlockHoldsBufferIff(c: Area, t: Tile, sizeWords: nat)
    requires OrdinaryArea(c) && sizeWords < c.limit && TileOk(c, t) && t.size <= c.size && GrantsBuffer(c, t, sizeWords)
    ensures BufferRoom(c, t, sizeWords) >= WORD * sizeWords <==> NothingWraps(c, t, sizeWords)
    ensures BufferRoom(c, t, sizeWords) >= WORD * sizeWords <==> sizeWords <= TENSOR_WORDS
  {
    NothingWrapsIff(c, t, sizeWords);
    IsRequest(c, SizeBytes(c.limit, sizeWords));
    if sizeWords <= TENSOR_WORDS {
      SizeBytesIs(c.limit, sizeWords);
      SizeLimits.RoomIff(c, t, WORD * sizeWords, LINE);
      RoundUpIsLeast(Max(WORD * sizeWords, c.NodeSize()), LINE);
    }
  }

  /** Exactly which requests for more than the area are granted by a node, instead of refused. */
  lemma {:induction false} OversizeGrantedIff(c: Area, t: Tile, sizeWords: nat)
    requires OrdinaryArea(c) && TENSOR_WORDS < sizeWords < c.limit && SizeAccepted(c.limit, sizeWords)
    requires t.Free? && TileOk(c, t) && t.size <= c.size
    ensures SizeLimits.Request(c, SizeBytes(c.limit, sizeWords), LINE)
    ensures GrantsBuffer(c, t, sizeWords) <==>
      && SizeLimits.Need(c, t.start, SizeBytes(c.limit, sizeWords), LINE) >= c.limit
      && (SizeLimits.Whole(c, SizeBytes(c.limit, sizeWords), LINE) < c.limit || Padding(c, t.start, LINE) <= t.size)
  {
    var size := SizeBytes(c.limit, sizeWords);
    IsRequest(c, size);
    SizeBytesIs(c.limit, sizeWords);
    SizeLimits.WronglyGrantedIff(c, t, size, LINE);
    RoundUpIsLeast(Max(size, c.NodeSize()), LINE);
  }

  /** SIZE_MAX / 4 words: the product fits, rounding takes it to 0, and any node with room for the padding grants it. */
  lemma {:induction false} QuarterOfMemory(c: Area, t: Tile, sizeWords: nat)
    requires OrdinaryArea(c) && 4 * sizeWords + 4 == c.limit
    requires t.Free? && TileOk(c, t) && t.size <= c.size && Padding(c, t.start, LINE) <= t.size
    ensures GrantsBuffer(c, t, sizeWords) && BufferRoom(c, t, sizeWords) < 2 * c.NodeSize() < WORD * sizeWords
  {
    SizeBytesIs(c.limit, sizeWords);
    IsRequest(c, c.limit - 4);
    SizeLimits.WrappedRequest(c, t, c.limit - 4, LINE);
  }
}
