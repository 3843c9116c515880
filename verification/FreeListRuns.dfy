/**
 Whole runs of the free-list allocator.

 A run is any sequence of allocations (under either policy, which may change between calls),
 frees of live blocks, and free_all. Every run refines the specification a caller has in
 mind: a set of disjoint blocks.
 */
module FreeListRuns {
  import opened Bits
  import opened FreeListSpec

  datatype Op =
    | DoAlloc(size: nat, alignment: nat, policy: Policy)
    | DoFree(ptr: int)
    | DoFreeAll

  /** The allocator's state: the tiles, and the source's running total `used`. */
  datatype Heap = Heap(tiles: seq<Tile>, used: int)

  function Initial(c: Area): Heap {
    Heap([Free(0, c.size)], 0)
  }

  /** The position of the live block that was handed out as ptr. */
  function FindLive(ts: seq<Tile>, ptr: int, i: nat): (k: int)
    requires i <= |ts|
    ensures k == NULL || (i <= k < |ts| && ts[k].Live? && ts[k].ptr == ptr)
    ensures k == NULL ==> forall j | i <= j < |ts| :: !(ts[j].Live? && ts[j].ptr == ptr)
    decreases |ts| - i
  {
    if i == |ts| then NULL
    else if ts[i].Live? && ts[i].ptr == ptr then i
    else FindLive(ts, ptr, i + 1)
  }

  /** What a caller may ask: sizes that do not wrap, and frees of live blocks or NULL. */
  predicate Allowed(c: Area, h: Heap, op: Op)
    requires c.Valid()
  {
    match op
    case DoAlloc(size, alignment, _) => Representable(c, size, alignment)
    case DoFree(ptr) => ptr == NULL || FindLive(h.tiles, ptr, 0) != NULL
    case DoFreeAll => true
  }

  function Step(c: Area, h: Heap, op: Op): Heap
    requires c.Valid() && Allowed(c, h, op)
  {
    match op
    case DoAlloc(size, alignment, policy) =>
      var a, r := Alignment(c, alignment), Rounded(c, size, alignment);
      var k := Choose(c, policy, h.tiles, r, a);
      ChooseFits(c, policy, h.tiles, size, alignment);
      if k == NULL then h
      else Heap(AllocAt(c, h.tiles, k, r, a, size), h.used + Carve(c, h.tiles[k], r, a, size)[0].size)
    case DoFree(ptr) =>
      if ptr == NULL then h
      else
        var k := FindLive(h.tiles, ptr, 0);
        Heap(FreeAt(h.tiles, k), h.used - h.tiles[k].size)
    case DoFreeAll => Initial(c)
  }

  /** The invariant of every reachable state. */
  ghost predicate Good(c: Area, h: Heap)
    requires c.Valid()
  {
    Tiling(c, h.tiles) && Coalesced(h.tiles) && h.used + FreeSpan(h.tiles) == c.size
  }

  lemma {:induction false} InitialIsGood(c: Area)
    requires c.Valid()
    ensures Good(c, Initial(c)) && LiveSet(Initial(c).tiles) == {}
  {
    var t := Free(0, c.size);
    SingleSpan(t);
    OneTileOk(c, t);
    assert [t][1..] == [];
    assert Contiguous([t], 0);
  }

  // ---------- gaps ----------

  ghost predicate Apart(s: nat, e: nat, b: Tile) {
    e <= b.start || b.End() <= s
  }

  /** A maximal stretch of the area that no live block touches. */
  ghost predicate IsMaximalGap(c: Area, live: set<Tile>, s: nat, n: nat) {
    && 0 < n && s + n <= c.size
    && (forall b | b in live :: Apart(s, s + n, b))
    && (s == 0 || exists b :: b in live && b.End() == s)
    && (s + n == c.size || exists b :: b in live && b.start == s + n)
  }

  lemma {:induction false} TileAt(ts: seq<Tile>, lo: nat, x: nat) returns (k: nat)
    requires Contiguous(ts, lo) && lo <= x < lo + Span(ts)
    ensures k < |ts| && ts[k].start <= x < ts[k].End()
    decreases ts
  {
    if x < ts[0].End() {
      k := 0;
    } else {
      var k' := TileAt(ts[1..], lo + ts[0].size, x);
      k := k' + 1;
    }
  }

  lemma {:induction false} NeighboursOfFree(ts: seq<Tile>, k: nat)
    requires Coalesced(ts) && k < |ts| && ts[k].Free?
    ensures k > 0 ==> ts[k - 1].Live?
    ensures k + 1 < |ts| ==> ts[k + 1].Live?
  {
    Split(ts, k);
    Coalesced3(ts[..k], [ts[k]], ts[k + 1..]);
  }

  lemma {:induction false} LeftOfFree(ts: seq<Tile>, k: nat)
    requires Contiguous(ts, 0) && Coalesced(ts) && k < |ts| && ts[k].Free?
    ensures ts[k].start == 0 || exists b :: b in LiveSet(ts) && b.End() == ts[k].start
  {
    NeighboursOfFree(ts, k);
    if k > 0 {
      TilesInOrder(ts, 0, k - 1, k);
      assert ts[k - 1] in LiveSet(ts);
    }
  }

  lemma {:induction false} RightOfFree(ts: seq<Tile>, k: nat)
    requires Contiguous(ts, 0) && Coalesced(ts) && k < |ts| && ts[k].Free?
    ensures ts[k].End() == Span(ts) || exists b :: b in LiveSet(ts) && b.start == ts[k].End()
  {
    NeighboursOfFree(ts, k);
    TilePosition(ts, 0, k);
    if k + 1 < |ts| {
      TilesInOrder(ts, 0, k, k + 1);
      assert ts[k + 1] in LiveSet(ts);
    } else {
      assert ts[k + 1..] == [];
    }
  }

  lemma {:induction false} FreeTileIsGap(c: Area, ts: seq<Tile>, k: nat)
    requires Contiguous(ts, 0) && Span(ts) == c.size && Coalesced(ts) && k < |ts| && ts[k].Free?
    ensures IsMaximalGap(c, LiveSet(ts), ts[k].start, ts[k].size)
  {
    TilesDisjoint(ts, 0);
    LeftOfFree(ts, k);
    RightOfFree(ts, k);
  }

  lemma {:induction false} GapIsFreeTile(c: Area, ts: seq<Tile>, s: nat, n: nat)
    requires Contiguous(ts, 0) && Span(ts) == c.size && Coalesced(ts)
    requires IsMaximalGap(c, LiveSet(ts), s, n)
    ensures Free(s, n) in ts
  {
    var k := TileAt(ts, 0, s);
    TilesDisjoint(ts, 0);
    var t := ts[k];
    assert t.Live? ==> t in LiveSet(ts);
    FreeTileIsGap(c, ts, k);
    assert ts[k].start == s;
    assert ts[k].size == n;
  }

  /** The free tiles of a reachable state are exactly the maximal gaps between live blocks. */
  lemma {:induction false} FreeTilesAreTheGaps(c: Area, h: Heap, s: nat, n: nat)
    requires c.Valid() && Good(c, h)
    ensures Free(s, n) in h.tiles <==> IsMaximalGap(c, LiveSet(h.tiles), s, n)
  {
    if Free(s, n) in h.tiles {
      var k :| 0 <= k < |h.tiles| && h.tiles[k] == Free(s, n);
      FreeTileIsGap(c, h.tiles, k);
    }
    if IsMaximalGap(c, LiveSet(h.tiles), s, n) {
      GapIsFreeTile(c, h.tiles, s, n);
    }
  }

  /** Two reachable states with the same live blocks have the same free list: no run leaves a trace. */
  lemma {:induction false} LiveBlocksDetermineTiles(ts: seq<Tile>, us: seq<Tile>, lo: nat)
    requires Contiguous(ts, lo) && Contiguous(us, lo) && Span(ts) == Span(us)
    requires Coalesced(ts) && Coalesced(us) && LiveSet(ts) == LiveSet(us)
    ensures ts == us
    decreases |ts|
  {
    if ts == [] || us == [] {
      SpanPositive(ts, lo);
      SpanPositive(us, lo);
    } else {
      SameHead(ts, us, lo);
      Tail(ts, lo);
      Tail(us, lo);
      LiveBlocksDetermineTiles(ts[1..], us[1..], lo + ts[0].size);
      assert ts == [ts[0]] + ts[1..];
      assert us == [us[0]] + us[1..];
    }
  }

  lemma {:induction false} SpanPositive(ts: seq<Tile>, lo: nat)
    requires Contiguous(ts, lo)
    ensures ts == [] <==> Span(ts) == 0
  {
  }

  lemma {:induction false} Tail(ts: seq<Tile>, lo: nat)
    requires ts != [] && Contiguous(ts, lo) && Coalesced(ts)
    ensures Coalesced(ts[1..])
    ensures LiveSet(ts[1..]) == LiveSet(ts) - {ts[0]}
  {
    TilesDisjoint(ts, lo);
    assert ts == [ts[0]] + ts[1..];
  }

  /** The first tile ends where the first live block after it starts, or at the end. */
  lemma {:induction false} HeadIsForced(ts: seq<Tile>, us: seq<Tile>, lo: nat)
    requires ts != [] && us != []
    requires Contiguous(ts, lo) && Contiguous(us, lo) && Span(ts) == Span(us)
    requires Coalesced(ts) && LiveSet(ts) <= LiveSet(us) && ts[0].Free?
    ensures if us[0].Free? then us[0].End() <= ts[0].End() else us[0] !in LiveSet(ts)
  {
    TilesDisjoint(ts, lo);
    TilesDisjoint(us, lo);
    if us[0].Free? {
      if |ts| > 1 {
        TilesInOrder(ts, lo, 0, 1);
        assert ts[1] in LiveSet(us);
      } else {
        assert ts[1..] == [];
      }
    }
  }

  lemma {:induction false} SameHead(ts: seq<Tile>, us: seq<Tile>, lo: nat)
    requires ts != [] && us != []
    requires Contiguous(ts, lo) && Contiguous(us, lo) && Span(ts) == Span(us)
    requires Coalesced(ts) && Coalesced(us) && LiveSet(ts) == LiveSet(us)
    ensures ts[0] == us[0]
  {
    assert us[0].Live? ==> us[0] in LiveSet(us);
    assert ts[0].Live? ==> ts[0] in LiveSet(ts);
    if ts[0].Free? {
      HeadIsForced(ts, us, lo);
    }
    if us[0].Free? {
      HeadIsForced(us, ts, lo);
    }
    if ts[0].Live? {
      TilesDisjoint(us, lo);
    }
  }

  // ---------- the specification: a set of disjoint blocks ----------

  /** A block that satisfies a request, clear of every live block. */
  ghost predicate IsNewBlock(c: Area, live: set<Tile>, b: Tile, size: nat, alignment: nat)
    requires c.Valid()
  {
    && b.Live? && b !in live && TileOk(c, b) && b.End() <= c.size
    && b.orig == size && b.align == Alignment(c, alignment)
    && (forall x | x in live :: Apart(b.start, b.End(), x))
  }

  /** The live blocks gain one that satisfies the request, and ptr is its address. */
  ghost predicate HandsOut(c: Area, live: set<Tile>, live': set<Tile>, ptr: int, size: nat, alignment: nat)
    requires c.Valid()
  {
    exists b :: b in live' && IsNewBlock(c, live, b, size, alignment) && b.ptr == ptr && live' == live + {b}
  }

  /** Does a maximal gap hold the header, its padding and the rounded request? */
  ghost predicate SomeGapHolds(c: Area, live: set<Tile>, size: nat, alignment: nat)
    requires c.Valid() && Representable(c, size, alignment)
  {
    exists s: nat, n: nat :: IsMaximalGap(c, live, s, n)
      && Fits(c, Free(s, n), Rounded(c, size, alignment), Alignment(c, alignment))
  }

  /** The bytes a gap at s must have for the request. */
  function Needed(c: Area, s: nat, size: nat, alignment: nat): nat
    requires c.Valid() && Representable(c, size, alignment)
  {
    RoundUp(Max(size, c.NodeSize()), Alignment(c, alignment)) + Padding(c, s, Alignment(c, alignment))
  }

  ghost predicate HoldsRequest(c: Area, live: set<Tile>, size: nat, alignment: nat, s: nat, n: nat)
    requires c.Valid() && Representable(c, size, alignment)
  {
    IsMaximalGap(c, live, s, n) && Needed(c, s, size, alignment) <= n
  }

  /** A policy prefers one gap to another: the lower one, or the one that leaves less, of these the lower. */
  predicate Prefers(c: Area, policy: Policy, size: nat, alignment: nat, s: nat, n: nat, s': nat, n': nat)
    requires c.Valid() && Representable(c, size, alignment)
  {
    match policy
    case FindFirst => s <= s'
    case FindBest =>
      var total, total' := n + Needed(c, s', size, alignment), n' + Needed(c, s, size, alignment);
      total < total' || (total == total' && s <= s')
  }

  /** The gap a policy takes: of those that hold the request, the one it prefers to all. */
  ghost predicate PolicyGap(c: Area, live: set<Tile>, policy: Policy, size: nat, alignment: nat, s: nat, n: nat)
    requires c.Valid() && Representable(c, size, alignment)
  {
    && HoldsRequest(c, live, size, alignment, s, n)
    && forall s': nat, n': nat | HoldsRequest(c, live, size, alignment, s', n') :: Prefers(c, policy, size, alignment, s, n, s', n')
  }

  /** The block made of a gap: at its start, no larger than needed unless less than two nodes would be left. */
  function BlockOf(c: Area, size: nat, alignment: nat, s: nat, n: nat): Tile
    requires c.Valid() && Representable(c, size, alignment)
  {
    var need, a := Needed(c, s, size, alignment), Alignment(c, alignment);
    Live(s, if n < need + 2 * c.NodeSize() then n else need, s + Padding(c, s, a), size, a)
  }

  /** Exactly the policy's block is added. */
  ghost predicate TakesPolicyGap(c: Area, live: set<Tile>, live': set<Tile>, policy: Policy, size: nat, alignment: nat, ptr: int)
    requires c.Valid() && Representable(c, size, alignment)
  {
    exists s: nat, n: nat :: PolicyGap(c, live, policy, size, alignment, s, n)
      && ptr == BlockOf(c, size, alignment, s, n).ptr && live' == live + {BlockOf(c, size, alignment, s, n)}
  }

  lemma {:induction false} HoldsIsFits(c: Area, h: Heap, size: nat, alignment: nat, s: nat, n: nat)
    requires c.Valid() && Good(c, h) && Representable(c, size, alignment)
    ensures HoldsRequest(c, LiveSet(h.tiles), size, alignment, s, n) <==>
      Free(s, n) in h.tiles && Passes(c, Free(s, n), Rounded(c, size, alignment), Alignment(c, alignment))
    ensures Leftover(c, Free(s, n), Rounded(c, size, alignment), Alignment(c, alignment)) == n - Needed(c, s, size, alignment)
  {
    FreeTilesAreTheGaps(c, h, s, n);
    RepresentableRounds(c, size, alignment);
    TestIsExact(c, Free(s, n), size, alignment);
  }

  lemma {:induction false} ChoiceBeats(c: Area, h: Heap, policy: Policy, size: nat, alignment: nat, k: nat, j: nat)
    requires c.Valid() && Good(c, h) && Representable(c, size, alignment) && k < |h.tiles| && j < |h.tiles|
    requires IsChoice(c, policy, h.tiles, Rounded(c, size, alignment), Alignment(c, alignment), k)
    requires Passes(c, h.tiles[j], Rounded(c, size, alignment), Alignment(c, alignment))
    ensures Prefers(c, policy, size, alignment, h.tiles[k].start, h.tiles[k].size, h.tiles[j].start, h.tiles[j].size)
  {
    TilesDisjoint(h.tiles, 0);
    HoldsIsFits(c, h, size, alignment, h.tiles[k].start, h.tiles[k].size);
    HoldsIsFits(c, h, size, alignment, h.tiles[j].start, h.tiles[j].size);
    assert h.tiles[k] == Free(h.tiles[k].start, h.tiles[k].size) && h.tiles[j] == Free(h.tiles[j].start, h.tiles[j].size);
  }

  /** The tile the search chooses is the policy's gap. */
  lemma {:induction false} ChoiceIsPolicyGap(c: Area, h: Heap, policy: Policy, size: nat, alignment: nat, k: nat)
    requires c.Valid() && Good(c, h) && Representable(c, size, alignment) && k < |h.tiles|
    requires IsChoice(c, policy, h.tiles, Rounded(c, size, alignment), Alignment(c, alignment), k)
    ensures PolicyGap(c, LiveSet(h.tiles), policy, size, alignment, h.tiles[k].start, h.tiles[k].size)
  {
    var t := h.tiles[k];
    assert t == Free(t.start, t.size);
    HoldsIsFits(c, h, size, alignment, t.start, t.size);
    forall s': nat, n': nat | HoldsRequest(c, LiveSet(h.tiles), size, alignment, s', n')
      ensures Prefers(c, policy, size, alignment, t.start, t.size, s', n')
    {
      HoldsIsFits(c, h, size, alignment, s', n');
      var j :| 0 <= j < |h.tiles| && h.tiles[j] == Free(s', n');
      ChoiceBeats(c, h, policy, size, alignment, k, j);
    }
  }

  /** An allocation that succeeds takes the policy's gap and makes of it the block described above. */
  lemma {:induction false} AllocTakesPolicyGap(c: Area, h: Heap, policy: Policy, size: nat, alignment: nat, ptr: int)
    requires c.Valid() && Good(c, h) && Representable(c, size, alignment)
    requires var h' := Step(c, h, DoAlloc(size, alignment, policy));
      HandsOut(c, LiveSet(h.tiles), LiveSet(h'.tiles), ptr, size, alignment)
    ensures var h' := Step(c, h, DoAlloc(size, alignment, policy));
      TakesPolicyGap(c, LiveSet(h.tiles), LiveSet(h'.tiles), policy, size, alignment, ptr)
  {
    var r, a := Rounded(c, size, alignment), Alignment(c, alignment);
    var k := Choose(c, policy, h.tiles, r, a);
    ChooseIsChoice(c, policy, h.tiles, r, a);
    ChooseFits(c, policy, h.tiles, size, alignment);
    if k != NULL {
      var t := h.tiles[k];
      ChoiceIsPolicyGap(c, h, policy, size, alignment, k);
      AllocAtKeepsTiling(c, h.tiles, k, size, alignment);
      CarvedBlock(c, t, size, alignment);
    }
  }

  lemma {:induction false} CarvedBlock(c: Area, t: Tile, size: nat, alignment: nat)
    requires c.Valid() && Representable(c, size, alignment) && Fits(c, t, Rounded(c, size, alignment), Alignment(c, alignment))
    ensures Carve(c, t, Rounded(c, size, alignment), Alignment(c, alignment), size)[0] == BlockOf(c, size, alignment, t.start, t.size)
  {
    RepresentableRounds(c, size, alignment);
  }

  ghost predicate SpecStep(c: Area, live: set<Tile>, op: Op, live': set<Tile>)
    requires c.Valid()
  {
    match op
    case DoAlloc(size, alignment, policy) =>
      && Representable(c, size, alignment)
      && (if SomeGapHolds(c, live, size, alignment)
          then exists b :: IsNewBlock(c, live, b, size, alignment) && live' == live + {b}
          else live' == live)
    case DoFree(ptr) =>
      if ptr == NULL then live' == live
      else exists b :: b in live && b.Live? && b.ptr == ptr && live' == live - {b}
    case DoFreeAll => live' == {}
  }

  lemma {:induction false} SomeGapHoldsIsSomeTileFits(c: Area, h: Heap, size: nat, alignment: nat)
    requires c.Valid() && Good(c, h) && Representable(c, size, alignment)
    ensures SomeGapHolds(c, LiveSet(h.tiles), size, alignment)
      <==> exists t :: t in h.tiles && Fits(c, t, Rounded(c, size, alignment), Alignment(c, alignment))
  {
    var a, r := Alignment(c, alignment), Rounded(c, size, alignment);
    if SomeGapHolds(c, LiveSet(h.tiles), size, alignment) {
      var s: nat, n: nat :| IsMaximalGap(c, LiveSet(h.tiles), s, n) && Fits(c, Free(s, n), r, a);
      FreeTilesAreTheGaps(c, h, s, n);
      assert Free(s, n) in h.tiles;
    }
    forall t | t in h.tiles && Fits(c, t, r, a)
      ensures IsMaximalGap(c, LiveSet(h.tiles), t.start, t.size) && Free(t.start, t.size) == t
    {
      FreeTilesAreTheGaps(c, h, t.start, t.size);
    }
  }

  lemma {:induction false} AllocStepRefines(c: Area, h: Heap, op: Op)
    requires c.Valid() && Good(c, h) && op.DoAlloc? && Allowed(c, h, op)
    ensures Good(c, Step(c, h, op))
    ensures SpecStep(c, LiveSet(h.tiles), op, LiveSet(Step(c, h, op).tiles))
  {
    var a, r := Alignment(c, op.alignment), Rounded(c, op.size, op.alignment);
    var k := Choose(c, op.policy, h.tiles, r, a);
    ChooseFits(c, op.policy, h.tiles, op.size, op.alignment);
    SomeGapHoldsIsSomeTileFits(c, h, op.size, op.alignment);
    if k != NULL {
      assert h.tiles[k] in h.tiles;
      AllocAtKeepsTiling(c, h.tiles, k, op.size, op.alignment);
      NewBlockIsClear(c, h, k, op.size, op.alignment);
    }
  }

  lemma {:induction false} NewBlockIsClear(c: Area, h: Heap, k: nat, size: nat, alignment: nat)
    requires c.Valid() && Good(c, h) && k < |h.tiles| && Representable(c, size, alignment)
    requires Fits(c, h.tiles[k], Rounded(c, size, alignment), Alignment(c, alignment))
    ensures var b := Carve(c, h.tiles[k], Rounded(c, size, alignment), Alignment(c, alignment), size)[0];
      IsNewBlock(c, LiveSet(h.tiles), b, size, alignment)
  {
    var ts, a, r := h.tiles, Alignment(c, alignment), Rounded(c, size, alignment);
    var b := Carve(c, ts[k], r, a, size)[0];
    CarveOk(c, ts[k], size, alignment);
    assert b in Carve(c, ts[k], r, a, size);
    assert b.start == ts[k].start && b.End() <= ts[k].End();
    StartOccursOnce(ts, k, b);
    ApartFromOthers(c, ts, k, b);
  }

  lemma {:induction false} ApartFromOthers(c: Area, ts: seq<Tile>, k: nat, b: Tile)
    requires Contiguous(ts, 0) && Span(ts) == c.size && k < |ts| && ts[k].Free?
    requires ts[k].start <= b.start && b.End() <= ts[k].End()
    ensures b.End() <= c.size && forall x | x in LiveSet(ts) :: Apart(b.start, b.End(), x)
  {
    TilesDisjoint(ts, 0);
  }

  /** One step keeps the invariant and does what the set-of-blocks specification says. */
  lemma {:induction false} StepRefines(c: Area, h: Heap, op: Op)
    requires c.Valid() && Good(c, h) && Allowed(c, h, op)
    ensures Good(c, Step(c, h, op))
    ensures SpecStep(c, LiveSet(h.tiles), op, LiveSet(Step(c, h, op).tiles))
  {
    match op
    case DoAlloc(_, _, _) => AllocStepRefines(c, h, op);
    case DoFree(ptr) =>
      if ptr != NULL {
        var k := FindLive(h.tiles, ptr, 0);
        FreeAtKeepsTiling(c, h.tiles, k);
        assert h.tiles[k] in LiveSet(h.tiles);
      }
    case DoFreeAll => InitialIsGood(c);
  }

  // ---------- runs ----------

  ghost predicate AllAllowed(c: Area, h: Heap, ops: seq<Op>)
    requires c.Valid()
    decreases ops
  {
    ops == [] || (Allowed(c, h, ops[0]) && AllAllowed(c, Step(c, h, ops[0]), ops[1..]))
  }

  ghost function Run(c: Area, h: Heap, ops: seq<Op>): Heap
    requires c.Valid() && AllAllowed(c, h, ops)
    decreases ops
  {
    if ops == [] then h else Run(c, Step(c, h, ops[0]), ops[1..])
  }

  /** The specification's runs: some live set after each operation. */
  ghost predicate SpecRun(c: Area, live: set<Tile>, ops: seq<Op>, live': set<Tile>)
    requires c.Valid()
    decreases ops
  {
    if ops == [] then live' == live
    else exists mid :: SpecStep(c, live, ops[0], mid) && SpecRun(c, mid, ops[1..], live')
  }

  /** Every run refines the set-of-disjoint-blocks specification and keeps the area tiled. */
  lemma {:induction false} RunRefines(c: Area, h: Heap, ops: seq<Op>)
    requires c.Valid() && Good(c, h) && AllAllowed(c, h, ops)
    ensures Good(c, Run(c, h, ops))
    ensures SpecRun(c, LiveSet(h.tiles), ops, LiveSet(Run(c, h, ops).tiles))
    decreases ops
  {
    if ops != [] {
      StepRefines(c, h, ops[0]);
      RunRefines(c, Step(c, h, ops[0]), ops[1..]);
    }
  }

  /** With nothing live the whole area is one free tile. */
  lemma {:induction false} NothingLive(c: Area, h: Heap)
    requires c.Valid() && Good(c, h) && LiveSet(h.tiles) == {}
    ensures h == Initial(c)
  {
    InitialIsGood(c);
    LiveBlocksDetermineTiles(h.tiles, Initial(c).tiles, 0);
  }

  function Frees(ptrs: seq<int>): seq<Op> {
    if ptrs == [] then [] else [DoFree(ptrs[0])] + Frees(ptrs[1..])
  }

  ghost function LivePtrs(ts: seq<Tile>): set<int> {
    set t | t in LiveSet(ts) :: t.ptr
  }

  ghost predicate Distinct(ptrs: seq<int>) {
    forall i, j | 0 <= i < j < |ptrs| :: ptrs[i] != ptrs[j]
  }

  /** Different live blocks were handed out under different pointers. */
  lemma {:induction false} PtrsAreUnique(c: Area, h: Heap, x: Tile, y: Tile)
    requires c.Valid() && Good(c, h) && x in LiveSet(h.tiles) && y in LiveSet(h.tiles) && x.ptr == y.ptr
    ensures x == y
  {
    TilesDisjoint(h.tiles, 0);
    assert TileOk(c, x) && TileOk(c, y);
    PtrInside(c, x);
    PtrInside(c, y);
  }

  lemma {:induction false} PtrInside(c: Area, t: Tile)
    requires c.Valid() && t.Live? && TileOk(c, t)
    ensures t.start < t.ptr < t.End() && t.ptr + t.orig <= t.End() && t.ptr + c.NodeSize() <= t.End()
  {
    RoundUpIsLeast(Max(t.orig, c.NodeSize()), t.align);
  }

  /** Freeing all live blocks, in any order, leaves the single node the area started with. */
  lemma {:induction false} FreedInAnyOrder(c: Area, h: Heap, ptrs: seq<int>)
    requires c.Valid() && Good(c, h) && Distinct(ptrs)
    requires (set p | p in ptrs) == LivePtrs(h.tiles)
    ensures AllAllowed(c, h, Frees(ptrs)) && Run(c, h, Frees(ptrs)) == Initial(c)
    decreases ptrs
  {
    if ptrs == [] {
      assert forall x | x in LiveSet(h.tiles) :: x.ptr in LivePtrs(h.tiles);
      NothingLive(c, h);
    } else {
      FreeOnePtr(c, h, ptrs);
      var h' := Step(c, h, DoFree(ptrs[0]));
      FreedInAnyOrder(c, h', ptrs[1..]);
      assert Frees(ptrs)[1..] == Frees(ptrs[1..]);
    }
  }

  /** A live pointer can be freed, and it alone disappears. */
  lemma {:induction false} FreeRemovesPtr(c: Area, h: Heap, p: int)
    requires c.Valid() && Good(c, h) && p in LivePtrs(h.tiles)
    ensures Allowed(c, h, DoFree(p)) && Good(c, Step(c, h, DoFree(p)))
    ensures LivePtrs(Step(c, h, DoFree(p)).tiles) == LivePtrs(h.tiles) - {p}
  {
    var t :| t in LiveSet(h.tiles) && t.ptr == p;
    var k := FindLive(h.tiles, p, 0);
    PtrIsNotNull(c, h, t);
    StepRefines(c, h, DoFree(p));
    FreeAtKeepsTiling(c, h.tiles, k);
    OnlyPtr(c, h, k);
  }

  lemma {:induction false} PtrIsNotNull(c: Area, h: Heap, t: Tile)
    requires t in LiveSet(h.tiles)
    ensures t.ptr != NULL && FindLive(h.tiles, t.ptr, 0) != NULL
  {
  }

  lemma {:induction false} OnlyPtr(c: Area, h: Heap, k: nat)
    requires c.Valid() && Good(c, h) && k < |h.tiles| && h.tiles[k].Live?
    ensures forall ts | LiveSet(ts) == LiveSet(h.tiles) - {h.tiles[k]} :: LivePtrs(ts) == LivePtrs(h.tiles) - {h.tiles[k].ptr}
  {
    forall x | x in LiveSet(h.tiles) && x.ptr == h.tiles[k].ptr
      ensures x == h.tiles[k]
    {
      PtrsAreUnique(c, h, x, h.tiles[k]);
    }
  }

  lemma {:induction false} FreeOnePtr(c: Area, h: Heap, ptrs: seq<int>)
    requires c.Valid() && Good(c, h) && Distinct(ptrs) && ptrs != []
    requires (set p | p in ptrs) == LivePtrs(h.tiles)
    ensures Allowed(c, h, DoFree(ptrs[0]))
    ensures Good(c, Step(c, h, DoFree(ptrs[0])))
    ensures Distinct(ptrs[1..]) && (set p | p in ptrs[1..]) == LivePtrs(Step(c, h, DoFree(ptrs[0])).tiles)
  {
    var p := ptrs[0];
    assert p in (set q | q in ptrs);
    FreeRemovesPtr(c, h, p);
    assert ptrs == [p] + ptrs[1..];
    assert p !in ptrs[1..];
  }
}
