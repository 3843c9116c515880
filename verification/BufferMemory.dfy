/**
 The library together with the memory it manages: calls of the library, and a client that
 writes its buffers in between. The nodes and headers live in the same memory as the data.
 */
module BufferMemory {
  import opened FreeListSpec
  import opened FreeListMemory
  import opened FreeListSteps
  import FreeListRuns
  import opened Buffers
  import Library

  /** The library, the cells of the tensor area, and the head of the free list. */
  datatype World = World(lib: Library.Lib, cells: seq<int>, head: int)

  datatype Event =
    | Called(call: Library.LibCall)
    | Wrote(buffer: Buffer, at: nat, data: seq<int>)  // by set_data, or through the pointer of to_ptr

  /** m with `data` at a. */
  function Overwrite(m: seq<int>, a: nat, data: seq<int>): (r: seq<int>)
    requires a + |data| <= |m|
    ensures |r| == |m| && r[a..a + |data|] == data && SameOutside(m, r, a, a + |data|)
  {
    m[..a] + data + m[a + |data|..]
  }

  /** The heap describes the memory. */
  ghost predicate Sound(c: Area, w: World)
    requires c.Valid()
  {
    FreeListRuns.Good(c, w.lib.heap) && Image(c, w.cells, w.head, w.lib.heap.tiles)
  }

  /** The block a call frees, if it frees one. */
  function Freed(c: Area, l: Library.Lib, call: Library.LibCall): int
    requires c.limit > 0
  {
    if Library.Ok(l) && call.BufferFree? && call.buffer.valid
    then FreeListRuns.FindLive(l.heap.tiles, ToPtr(c.limit, call.buffer), 0) else NULL
  }

  /** What a call leaves of the memory: an image of the new heap, and every block it did not free. */
  ghost predicate CallStep(c: Area, w: World, call: Library.LibCall, w': World)
    requires TensorArea(c)
  {
    && Library.Allowed(c, w.lib, call) && w'.lib == Library.Step(c, w.lib, call)
    && Image(c, w'.cells, w'.head, w'.lib.heap.tiles)
    && (call.BufferFreeAll? || KeepsLive(w.lib.heap.tiles, Freed(c, w.lib, call), w.cells, w'.cells))
  }

  /** A client writes inside a buffer it holds. */
  ghost predicate WriteStep(c: Area, w: World, t: Tile, b: Buffer, at: nat, data: seq<int>, w': World)
    requires c.Valid()
  {
    && Backs(c, w.lib.heap, t, b) && at + |data| <= t.orig && t.ptr + t.orig <= |w.cells|
    && w' == w.(cells := Overwrite(w.cells, t.ptr + at, data))
  }

  ghost predicate WorldStep(c: Area, w: World, e: Event, w': World)
    requires TensorArea(c)
  {
    match e
    case Called(call) => CallStep(c, w, call, w')
    case Wrote(b, at, data) => exists t :: WriteStep(c, w, t, b, at, data, w')
  }

  // ---------- one step ----------

  lemma {:induction false} WriteKeeps(c: Area, w: World, t: Tile, b: Buffer, at: nat, data: seq<int>, w': World)
    requires TensorArea(c) && Sound(c, w) && WriteStep(c, w, t, b, at, data, w')
    ensures Sound(c, w')
    ensures forall u | u in LiveSet(w.lib.heap.tiles) && u != t :: SameCells(w.cells, w'.cells, u.start, u.End())
    ensures w'.cells[t.ptr + at..t.ptr + at + |data|] == data
  {
    var ts := w.lib.heap.tiles;
    var k :| 0 <= k < |ts| && ts[k] == t;
    TilingShape(c, ts);
    PayloadInTile(c, w.lib.heap, t);
    assert SameOutside(w.cells, w'.cells, t.ptr, t.End());
    PayloadWriteKeepsImage(c, w.cells, w.head, ts, k, w'.cells);
  }

  lemma {:induction false} PayloadInTile(c: Area, h: FreeListRuns.Heap, t: Tile)
    requires c.Valid() && FreeListRuns.Good(c, h) && t in LiveSet(h.tiles)
    ensures t.start <= t.ptr && t.ptr + t.orig <= t.End() <= c.size
  {
    assert TileOk(c, t);
    FreeListRuns.PtrInside(c, t);
    TilesDisjoint(h.tiles, 0);
  }

  /** No event frees the buffer at ptr. */
  ghost predicate Spares(c: Area, e: Event, ptr: int)
    requires c.limit > 0
  {
    e.Called? ==> Library.Spares(c, e.call, ptr)
  }

  /** The event writes the buffer b. */
  predicate WritesTo(e: Event, b: Buffer) {
    e.Wrote? && e.buffer.offsetWords == b.offsetWords
  }

  lemma {:induction false} CallKeeps(c: Area, w: World, call: Library.LibCall, w': World, t: Tile)
    requires TensorArea(c) && Sound(c, w) && CallStep(c, w, call, w')
    requires t in LiveSet(w.lib.heap.tiles) && Library.Spares(c, call, t.ptr)
    ensures Sound(c, w') && t in LiveSet(w'.lib.heap.tiles) && SameCells(w.cells, w'.cells, t.start, t.End())
  {
    Library.StepKeepsBuffer(c, w.lib, call, t);
    var ts := w.lib.heap.tiles;
    var k :| 0 <= k < |ts| && ts[k] == t;
    assert k != Freed(c, w.lib, call);
  }

  /** One event keeps a buffer it does not free, and its data unless it writes them. */
  lemma {:induction false} StepKeepsData(c: Area, w: World, e: Event, w': World, t: Tile, b: Buffer)
    requires TensorArea(c) && Sound(c, w) && WorldStep(c, w, e, w') && Backs(c, w.lib.heap, t, b) && Spares(c, e, t.ptr)
    ensures Sound(c, w') && Backs(c, w'.lib.heap, t, b) && |w'.cells| == |w.cells|
    ensures !WritesTo(e, b) ==> SameCells(w.cells, w'.cells, t.ptr, t.ptr + t.orig)
  {
    PayloadInTile(c, w.lib.heap, t);
    match e
    case Called(call) => CallKeeps(c, w, call, w', t);
    case Wrote(b', at, data) =>
      var t' :| WriteStep(c, w, t', b', at, data, w');
      WriteKeeps(c, w, t', b', at, data, w');
  }

  // ---------- runs ----------

  ghost predicate WorldRun(c: Area, ws: seq<World>, es: seq<Event>)
    requires TensorArea(c)
  {
    |ws| == |es| + 1 && forall i | 0 <= i < |es| :: WorldStep(c, ws[i], es[i], ws[i + 1])
  }

  /** The buffer is still there, with the cells it had in `was` if no event wrote them. */
  ghost predicate StillThere(c: Area, was: World, w: World, t: Tile, b: Buffer, written: bool)
    requires c.Valid()
  {
    && Sound(c, w) && Backs(c, w.lib.heap, t, b) && |w.cells| == |was.cells|
    && (!written ==> SameCells(was.cells, w.cells, t.ptr, t.ptr + t.orig))
  }

  /** Some event from i on, before n, writes b. */
  predicate WrittenBetween(es: seq<Event>, b: Buffer, i: nat, n: nat)
    requires i <= n <= |es|
  {
    exists k | i <= k < n :: WritesTo(es[k], b)
  }

  lemma {:induction false} StepStillThere(c: Area, was: World, w: World, e: Event, w': World, t: Tile, b: Buffer, written: bool)
    requires TensorArea(c) && StillThere(c, was, w, t, b, written) && WorldStep(c, w, e, w') && Spares(c, e, t.ptr)
    ensures StillThere(c, was, w', t, b, written || WritesTo(e, b))
  {
    StepKeepsData(c, w, e, w', t, b);
  }

  lemma {:induction false} RunStillThere(c: Area, ws: seq<World>, es: seq<Event>, t: Tile, b: Buffer, i: nat, n: nat)
    requires TensorArea(c) && WorldRun(c, ws, es) && i <= n <= |es|
    requires Sound(c, ws[i]) && Backs(c, ws[i].lib.heap, t, b)
    requires forall k | i <= k < n :: Spares(c, es[k], t.ptr)
    ensures StillThere(c, ws[i], ws[n], t, b, WrittenBetween(es, b, i, n))
    decreases n - i
  {
    if i == n {
      StartsThere(c, ws[i], t, b, WrittenBetween(es, b, i, n));
    } else {
      var k := n - 1;
      RunStillThere(c, ws, es, t, b, i, k);
      var written := WrittenBetween(es, b, i, k);
      StepStillThere(c, ws[i], ws[k], es[k], ws[k + 1], t, b, written);
      OneMoreEvent(es, b, i, k);
    }
  }

  lemma {:induction false} StartsThere(c: Area, w: World, t: Tile, b: Buffer, written: bool)
    requires c.Valid() && Sound(c, w) && Backs(c, w.lib.heap, t, b)
    ensures StillThere(c, w, w, t, b, written)
  {
  }

  lemma {:induction false} OneMoreEvent(es: seq<Event>, b: Buffer, i: nat, k: nat)
    requires i <= k < |es|
    ensures WrittenBetween(es, b, i, k + 1) <==> WrittenBetween(es, b, i, k) || WritesTo(es[k], b)
  {
  }

  /**
   Over any run of calls and of writes to buffers that does not free this one: it stays backed
   by its block, its address leads back to its handle through the header in memory, and its
   data are what they were unless it was itself written.
   */
  lemma {:induction false} BufferSurvives(c: Area, ws: seq<World>, es: seq<Event>, t: Tile, b: Buffer)
    requires TensorArea(c) && WorldRun(c, ws, es) && Sound(c, ws[0]) && Backs(c, ws[0].lib.heap, t, b)
    requires forall k | 0 <= k < |es| :: Spares(c, es[k], t.ptr)
    ensures var first, last := ws[0], ws[|es|];
      && Sound(c, last) && Backs(c, last.lib.heap, t, b)
      && FromPtr(c, last.cells, ToPtr(c.limit, b)) == Found(b)
      && ((forall e | e in es :: !WritesTo(e, b)) ==> SameCells(first.cells, last.cells, t.ptr, t.ptr + t.orig))
  {
    var last := ws[|es|];
    RunStillThere(c, ws, es, t, b, 0, |es|);
    PtrRoundTrip(c, last.cells, last.head, last.lib.heap, t, b);
  }

  lemma {:induction false} WriteAndUnique(c: Area, w: World, w': World, t: Tile, b: Buffer, at: nat, data: seq<int>)
    requires TensorArea(c) && Sound(c, w) && Backs(c, w.lib.heap, t, b) && WorldStep(c, w, Wrote(b, at, data), w')
    ensures Sound(c, w') && Backs(c, w'.lib.heap, t, b)
    ensures at + |data| <= t.orig && t.ptr + t.orig <= |w'.cells| && w'.cells[t.ptr + at..t.ptr + at + |data|] == data
  {
    var t' :| WriteStep(c, w, t', b, at, data, w');
    FreeListRuns.PtrsAreUnique(c, w.lib.heap, t, t');
    WriteKeeps(c, w, t, b, at, data, w');
  }

  /** What a client wrote in a buffer it reads there, after any run that neither frees nor writes it. */
  lemma {:induction false} WrittenDataStay(c: Area, ws: seq<World>, es: seq<Event>, t: Tile, b: Buffer, at: nat, data: seq<int>)
    requires TensorArea(c) && WorldRun(c, ws, es) && |es| > 0 && es[0] == Wrote(b, at, data)
    requires Sound(c, ws[0]) && Backs(c, ws[0].lib.heap, t, b)
    requires forall k | 0 < k < |es| :: Spares(c, es[k], t.ptr) && !WritesTo(es[k], b)
    ensures at + |data| <= t.orig && t.ptr + t.orig <= |ws[|es|].cells|
    ensures ws[|es|].cells[t.ptr + at..t.ptr + at + |data|] == data
  {
    assert WorldStep(c, ws[0], es[0], ws[0 + 1]);
    WriteAndUnique(c, ws[0], ws[1], t, b, at, data);
    RunStillThere(c, ws, es, t, b, 1, |es|);
    SliceStays(ws[1].cells, ws[|es|].cells, t.ptr, t.ptr + t.orig, t.ptr + at, |data|);
  }

  lemma {:induction false} SliceStays(m: seq<int>, m': seq<int>, lo: nat, hi: nat, a: nat, n: nat)
    requires SameCells(m, m', lo, hi) && lo <= a && a + n <= hi <= |m|
    ensures m'[a..a + n] == m[a..a + n]
  {
  }
}
