/**
 What the free-list allocator of lib/allocators.c is for, without its memory: an area cut
 into tiles, each of them free or handed out.

 Addresses are offsets from `fl->data`; the absolute address of offset p is `data + p`.
 */
module FreeListSpec {
  import opened Bits

  const NULL: int := -1

  /** The parameters of one allocator: the ABI, and the area it was initialised with. */
  datatype Area = Area(
    word: nat,      // sizeof(size_t), which is also the size of a pointer
    maxAlign: nat,  // sizeof(max_align_t)
    limit: nat,     // number of values of a size_t
    data: nat,      // absolute address of the area
    size: nat)      // its length in bytes
  {
    function NodeSize(): nat { 2 * word }
    function HeaderSize(): nat { 3 * word }

    predicate Valid() {
      && word >= 1
      && IsPowerOfTwo(maxAlign) && maxAlign % word == 0
      && data % maxAlign == 0
      && NodeSize() <= size
      && data + size <= limit
    }
  }

  datatype Policy = FindFirst | FindBest

  datatype Tile =
    | Free(start: nat, size: nat)
    | Live(start: nat, size: nat, ptr: nat, orig: nat, align: nat)
  {
    function End(): nat { start + size }
  }

  // ---------- padding ----------

  function Quotient(x: nat, y: nat): (r: nat)
    requires y > 0
    ensures r == x / y
  {
    x / y
  }

  /** calc_padding_with_header(), branch by branch. */
  function CalcPadding(ptr: nat, alignment: nat, header: nat): nat
    requires alignment > 0
  {
    var modulo := BitAnd(ptr, alignment - 1);
    var padding := if 0 < modulo <= alignment then alignment - modulo else 0;
    if padding < header then
      var needed := header - padding;
      if BitAnd(needed, alignment - 1) != 0
      then padding + Times(alignment, 1 + Quotient(needed, alignment))
      else padding + Times(alignment, Quotient(needed, alignment))
    else
      padding
  }

  /** q bytes leave room for a header and align what follows it. */
  ghost predicate Pads(ptr: nat, a: nat, header: nat, q: nat)
    requires a > 0
  {
    header <= q && (ptr + q) % a == 0
  }

  /** What the two roundings add up to. */
  lemma {:induction false} CalcPaddingValue(ptr: nat, a: nat, header: nat)
    requires IsPowerOfTwo(a)
    ensures var pad := RoundUp(ptr, a) - ptr;
      0 <= pad < a && CalcPadding(ptr, a, header) == if pad < header then pad + RoundUp(header - pad, a) else pad
  {
    MaskIsMod(ptr, a);
    RoundUpIsLeast(ptr, a);
    var pad := RoundUp(ptr, a) - ptr;
    if pad < header {
      var needed := header - pad;
      MaskIsMod(needed, a);
      RoundUpAsProduct(needed, a);
    }
  }

  lemma {:induction false} RoundUpAsProduct(p: nat, a: nat)
    requires a > 0
    ensures RoundUp(p, a) == if p % a != 0 then a * (1 + p / a) else a * (p / a)
  {
    assert p == a * (p / a) + p % a;
  }

  /** The padding is the least one that leaves room for the header and aligns what follows it. */
  lemma {:induction false} CalcPaddingIsLeast(ptr: nat, a: nat, header: nat)
    requires IsPowerOfTwo(a)
    ensures var r := CalcPadding(ptr, a, header);
      r < header + a && Pads(ptr, a, header, r) && forall q: nat | Pads(ptr, a, header, q) :: r <= q
  {
    CalcPaddingValue(ptr, a, header);
    RoundUpIsLeast(ptr, a);
    var r, pad := CalcPadding(ptr, a, header), RoundUp(ptr, a) - ptr;
    if pad < header {
      RoundUpIsLeast(header - pad, a);
      MultiplesApart(ptr + pad, RoundUp(header - pad, a), a);
    }
    forall q: nat | Pads(ptr, a, header, q)
      ensures r <= q
    {
      MultiplesApart(ptr + q, ptr + r, a);
    }
  }

  // ---------- requests ----------

  function Max(x: nat, y: nat): nat { if x < y then y else x }

  function Alignment(c: Area, alignment: nat): nat { Max(alignment, c.maxAlign) }

  /** The size a request is rounded to before a block is looked for. */
  function Rounded(c: Area, size: nat, alignment: nat): nat
    requires c.Valid()
  {
    AlignForward(Max(size, c.NodeSize()), Alignment(c, alignment), c.limit)
  }

  /**
   The requests whose size computations stay inside a size_t, whatever block is found. The
   source has no check for the others; SizeLimits shows what becomes of them.
   */
  predicate Representable(c: Area, size: nat, alignment: nat)
    requires c.Valid()
  {
    var a := Alignment(c, alignment);
    && IsPowerOfTwo(a)
    && RoundUp(Max(size, c.NodeSize()), a) + c.HeaderSize() + a <= c.limit
  }

  lemma {:induction false} RepresentableRounds(c: Area, size: nat, alignment: nat)
    requires c.Valid() && Representable(c, size, alignment)
    ensures var a := Alignment(c, alignment);
      && Rounded(c, size, alignment) == RoundUp(Max(size, c.NodeSize()), a)
      && Max(size, c.NodeSize()) <= Rounded(c, size, alignment)
      && Rounded(c, size, alignment) % a == 0
  {
    var p, a := Max(size, c.NodeSize()), Alignment(c, alignment);
    MaskIsMod(p, a);
    RoundUpIsLeast(p, a);
    if p % a != 0 {
      ModUnique(RoundUp(p, a), c.limit, 0, RoundUp(p, a));
    }
  }

  function Padding(c: Area, start: nat, a: nat): nat
    requires a > 0
  {
    CalcPadding(c.data + start, a, c.HeaderSize())
  }

  /** The tile has room for its padding and the rounded size. */
  predicate Fits(c: Area, t: Tile, rounded: nat, a: nat)
    requires a > 0
  {
    t.Free? && rounded + Padding(c, t.start, a) <= t.size
  }

  /** required_space: the same sum, in a size_t. */
  function Required(c: Area, start: nat, rounded: nat, a: nat): nat
    requires a > 0 && c.limit > 0
  {
    (rounded + Padding(c, start, a)) % c.limit
  }

  /** The test both searches make. */
  predicate Passes(c: Area, t: Tile, rounded: nat, a: nat)
    requires a > 0 && c.limit > 0
  {
    t.Free? && Required(c, t.start, rounded, a) <= t.size
  }

  function Leftover(c: Area, t: Tile, rounded: nat, a: nat): int
    requires a > 0 && c.limit > 0
  {
    t.size - Required(c, t.start, rounded, a)
  }

  /** Which tile a policy must pick: the reference the two searches are proved against. */
  ghost predicate IsChoice(c: Area, policy: Policy, ts: seq<Tile>, rounded: nat, a: nat, k: int)
    requires a > 0 && c.limit > 0
  {
    && 0 <= k < |ts|
    && Passes(c, ts[k], rounded, a)
    && match policy
       case FindFirst => forall j | 0 <= j < k :: !Passes(c, ts[j], rounded, a)
       case FindBest =>
         && (forall j | 0 <= j < |ts| && Passes(c, ts[j], rounded, a) ::
               Leftover(c, ts[k], rounded, a) <= Leftover(c, ts[j], rounded, a))
         && (forall j | 0 <= j < k && Passes(c, ts[j], rounded, a) ::
               Leftover(c, ts[k], rounded, a) < Leftover(c, ts[j], rounded, a))
  }

  lemma {:induction false} ChoiceIsUnique(c: Area, policy: Policy, ts: seq<Tile>, rounded: nat, a: nat, j: int, k: int)
    requires a > 0 && c.limit > 0
    requires IsChoice(c, policy, ts, rounded, a, j) && IsChoice(c, policy, ts, rounded, a, k)
    ensures j == k
  {
  }

  function FirstFit(c: Area, ts: seq<Tile>, rounded: nat, a: nat, i: nat): int
    requires a > 0 && c.limit > 0
    decreases |ts| - i
  {
    if i >= |ts| then NULL
    else if Passes(c, ts[i], rounded, a) then i
    else FirstFit(c, ts, rounded, a, i + 1)
  }

  function BestFit(c: Area, ts: seq<Tile>, rounded: nat, a: nat, n: nat): (r: int)
    requires a > 0 && c.limit > 0 && n <= |ts|
    ensures r == NULL || (0 <= r < n && Passes(c, ts[r], rounded, a))
  {
    if n == 0 then NULL
    else
      var b := BestFit(c, ts, rounded, a, n - 1);
      if Passes(c, ts[n - 1], rounded, a)
         && (b == NULL || Leftover(c, ts[n - 1], rounded, a) < Leftover(c, ts[b], rounded, a))
      then n - 1 else b
  }

  function Choose(c: Area, policy: Policy, ts: seq<Tile>, rounded: nat, a: nat): int
    requires a > 0 && c.limit > 0
  {
    match policy
    case FindFirst => FirstFit(c, ts, rounded, a, 0)
    case FindBest => BestFit(c, ts, rounded, a, |ts|)
  }

  lemma {:induction false} FirstFitFinds(c: Area, ts: seq<Tile>, rounded: nat, a: nat, i: nat)
    requires a > 0 && c.limit > 0
    ensures var k := FirstFit(c, ts, rounded, a, i);
      if k == NULL then forall j | i <= j < |ts| :: !Passes(c, ts[j], rounded, a)
      else i <= k < |ts| && Passes(c, ts[k], rounded, a) && forall j | i <= j < k :: !Passes(c, ts[j], rounded, a)
    decreases |ts| - i
  {
    if i < |ts| && !Passes(c, ts[i], rounded, a) {
      FirstFitFinds(c, ts, rounded, a, i + 1);
    }
  }

  lemma {:induction false} BestFitFinds(c: Area, ts: seq<Tile>, rounded: nat, a: nat, n: nat)
    requires a > 0 && c.limit > 0 && n <= |ts|
    ensures var k := BestFit(c, ts, rounded, a, n);
      if k == NULL then forall j | 0 <= j < n :: !Passes(c, ts[j], rounded, a)
      else
        && (forall j | 0 <= j < n && Passes(c, ts[j], rounded, a) ::
              Leftover(c, ts[k], rounded, a) <= Leftover(c, ts[j], rounded, a))
        && (forall j | 0 <= j < k && Passes(c, ts[j], rounded, a) ::
              Leftover(c, ts[k], rounded, a) < Leftover(c, ts[j], rounded, a))
  {
    if n > 0 {
      BestFitFinds(c, ts, rounded, a, n - 1);
    }
  }

  /** The search fails only when no tile passes the test, and what it finds is the policy's choice. */
  lemma {:induction false} ChooseIsChoice(c: Area, policy: Policy, ts: seq<Tile>, rounded: nat, a: nat)
    requires a > 0 && c.limit > 0
    ensures var k := Choose(c, policy, ts, rounded, a);
      if k == NULL then forall t | t in ts :: !Passes(c, t, rounded, a)
      else IsChoice(c, policy, ts, rounded, a, k)
  {
    FirstFitFinds(c, ts, rounded, a, 0);
    BestFitFinds(c, ts, rounded, a, |ts|);
  }

  /** For a representable request the sum does not wrap, and the test says what it should. */
  lemma {:induction false} TestIsExact(c: Area, t: Tile, size: nat, alignment: nat)
    requires c.Valid() && Representable(c, size, alignment)
    ensures var r, a := Rounded(c, size, alignment), Alignment(c, alignment);
      && Required(c, t.start, r, a) == r + Padding(c, t.start, a)
      && (Passes(c, t, r, a) <==> Fits(c, t, r, a))
  {
    var r, a := Rounded(c, size, alignment), Alignment(c, alignment);
    RepresentableRounds(c, size, alignment);
    SumInRange(c, t.start, r, a);
  }

  lemma {:induction false} SumInRange(c: Area, start: nat, rounded: nat, a: nat)
    requires IsPowerOfTwo(a) && rounded + c.HeaderSize() + a <= c.limit
    ensures Required(c, start, rounded, a) == rounded + Padding(c, start, a) && c.HeaderSize() <= Padding(c, start, a)
  {
    CalcPaddingIsLeast(c.data + start, a, c.HeaderSize());
    ModUnique(rounded + Padding(c, start, a), c.limit, 0, rounded + Padding(c, start, a));
  }

  /** A representable request is refused only when no tile has room, and gets one that has. */
  lemma {:induction false} ChooseFits(c: Area, policy: Policy, ts: seq<Tile>, size: nat, alignment: nat)
    requires c.Valid() && Representable(c, size, alignment)
    ensures var r, a := Rounded(c, size, alignment), Alignment(c, alignment);
      var k := Choose(c, policy, ts, r, a);
      if k == NULL then forall t | t in ts :: !Fits(c, t, r, a) else 0 <= k < |ts| && Fits(c, ts[k], r, a)
  {
    var r, a := Rounded(c, size, alignment), Alignment(c, alignment);
    ChooseIsChoice(c, policy, ts, r, a);
    forall t
      ensures Passes(c, t, r, a) <==> Fits(c, t, r, a)
    {
      TestIsExact(c, t, size, alignment);
    }
  }

  // ---------- tilings ----------

  function Span(ts: seq<Tile>): nat {
    if ts == [] then 0 else ts[0].size + Span(ts[1..])
  }

  ghost predicate Contiguous(ts: seq<Tile>, lo: nat) {
    ts == [] || (ts[0].start == lo && ts[0].size > 0 && Contiguous(ts[1..], lo + ts[0].size))
  }

  /** No two free tiles touch: freeing has merged everything that can be merged. */
  ghost predicate Coalesced(ts: seq<Tile>) {
    |ts| < 2 || (!(ts[0].Free? && ts[1].Free?) && Coalesced(ts[1..]))
  }

  ghost predicate TileOk(c: Area, t: Tile)
    requires c.Valid()
  {
    && (c.data + t.start) % c.maxAlign == 0
    && t.size >= c.NodeSize()
    && (t.Live? ==>
          && IsPowerOfTwo(t.align) && c.maxAlign <= t.align
          && t.start + c.HeaderSize() <= t.ptr
          && (c.data + t.ptr) % t.align == 0
          && t.ptr + RoundUp(Max(t.orig, c.NodeSize()), t.align) <= t.End())
  }

  ghost predicate TilesOk(c: Area, ts: seq<Tile>)
    requires c.Valid()
  {
    forall t | t in ts :: TileOk(c, t)
  }

  /** The invariant: the tiles cover the area exactly, in address order. */
  ghost predicate Tiling(c: Area, ts: seq<Tile>)
    requires c.Valid()
  {
    Contiguous(ts, 0) && Span(ts) == c.size && TilesOk(c, ts)
  }

  lemma {:induction false} SpanAppend(a: seq<Tile>, b: seq<Tile>)
    ensures Span(a + b) == Span(a) + Span(b)
  {
    if a == [] {
      assert a + b == b;
    } else {
      SpanAppend(a[1..], b);
      assert (a + b)[1..] == a[1..] + b;
    }
  }

  lemma {:induction false} ContiguousAppend(a: seq<Tile>, b: seq<Tile>, lo: nat)
    ensures Contiguous(a + b, lo) <==> Contiguous(a, lo) && Contiguous(b, lo + Span(a))
  {
    if a == [] {
      assert a + b == b;
    } else {
      assert (a + b)[1..] == a[1..] + b;
      ContiguousAppend(a[1..], b, lo + a[0].size);
    }
  }

  lemma {:induction false} CoalescedAppend(a: seq<Tile>, b: seq<Tile>)
    ensures Coalesced(a + b) <==>
      && Coalesced(a) && Coalesced(b)
      && !(a != [] && b != [] && a[|a| - 1].Free? && b[0].Free?)
  {
    if a == [] {
      assert a + b == b;
    } else {
      assert (a + b)[1..] == a[1..] + b;
      CoalescedAppend(a[1..], b);
      if |a| == 1 {
        assert a[1..] == [];
      }
    }
  }

  /** Where tile i of a contiguous sequence lies. */
  lemma {:induction false} TilePosition(ts: seq<Tile>, lo: nat, i: nat)
    requires Contiguous(ts, lo) && i < |ts|
    ensures ts[i].start == lo + Span(ts[..i]) && ts[i].size > 0
    ensures ts[i].End() <= lo + Span(ts)
    ensures Contiguous(ts[..i], lo) && Contiguous(ts[i..], ts[i].start) && Contiguous(ts[i + 1..], ts[i].End())
    ensures Span(ts) == Span(ts[..i]) + ts[i].size + Span(ts[i + 1..])
  {
    assert ts == ts[..i] + ts[i..];
    assert ts[i..][1..] == ts[i + 1..];
    SpanAppend(ts[..i], ts[i..]);
    ContiguousAppend(ts[..i], ts[i..], lo);
  }

  lemma {:induction false} TilesInOrder(ts: seq<Tile>, lo: nat, i: nat, j: nat)
    requires Contiguous(ts, lo) && i < j < |ts|
    ensures ts[i].End() <= ts[j].start
    ensures j == i + 1 ==> ts[i].End() == ts[j].start
  {
    TilePosition(ts, lo, j);
    TilePosition(ts[..j], lo, i);
    if j == i + 1 {
      assert ts[..j][i + 1..] == [];
    }
  }

  /** Tiles at two positions do not overlap, so a tile occurs once. */
  lemma {:induction false} TilesDisjoint(ts: seq<Tile>, lo: nat)
    requires Contiguous(ts, lo)
    ensures forall i, j | 0 <= i < j < |ts| :: ts[i].End() <= ts[j].start
    ensures forall i | 0 <= i < |ts| :: lo <= ts[i].start && ts[i].size > 0 && ts[i].End() <= lo + Span(ts)
  {
    forall i, j | 0 <= i < j < |ts|
      ensures ts[i].End() <= ts[j].start
    {
      TilesInOrder(ts, lo, i, j);
    }
    forall i | 0 <= i < |ts|
      ensures lo <= ts[i].start && ts[i].size > 0 && ts[i].End() <= lo + Span(ts)
    {
      TilePosition(ts, lo, i);
    }
  }

  // ---------- the operations on tilings ----------

  /** free_list_alloc() on the tile it found: a live block, and what is left if a node fits twice. */
  function Carve(c: Area, t: Tile, rounded: nat, a: nat, orig: nat): seq<Tile>
    requires a > 0 && Fits(c, t, rounded, a)
  {
    var required := rounded + Padding(c, t.start, a);
    var ptr := t.start + Padding(c, t.start, a);
    var remaining := t.size - required;
    if remaining >= c.NodeSize() + c.NodeSize()
    then [Live(t.start, required, ptr, orig, a), Free(t.start + required, remaining)]
    else [Live(t.start, t.size, ptr, orig, a)]
  }

  function AllocAt(c: Area, ts: seq<Tile>, k: nat, rounded: nat, a: nat, orig: nat): seq<Tile>
    requires a > 0 && k < |ts| && Fits(c, ts[k], rounded, a)
  {
    ts[..k] + Carve(c, ts[k], rounded, a, orig) + ts[k + 1..]
  }

  /** Merge tile k with its right neighbour when both are free. */
  function MergeAt(ts: seq<Tile>, k: nat): seq<Tile>
  {
    if k + 1 < |ts| && ts[k].Free? && ts[k + 1].Free?
    then ts[..k] + [Free(ts[k].start, ts[k].size + ts[k + 1].size)] + ts[k + 2..]
    else ts
  }

  function Released(ts: seq<Tile>, k: nat): seq<Tile>
    requires k < |ts|
  {
    ts[..k] + [Free(ts[k].start, ts[k].size)] + ts[k + 1..]
  }

  /** free_list_free() of tile k: release it, merge to the right, then to the left. */
  function FreeAt(ts: seq<Tile>, k: nat): seq<Tile>
    requires k < |ts|
  {
    var right := MergeAt(Released(ts, k), k);
    if k > 0 then MergeAt(right, k - 1) else right
  }

  ghost function LiveSet(ts: seq<Tile>): set<Tile> {
    set t | t in ts && t.Live?
  }

  function FreeSpan(ts: seq<Tile>): nat {
    if ts == [] then 0 else (if ts[0].Free? then ts[0].size else 0) + FreeSpan(ts[1..])
  }

  lemma {:induction false} FreeSpanAppend(a: seq<Tile>, b: seq<Tile>)
    ensures FreeSpan(a + b) == FreeSpan(a) + FreeSpan(b)
  {
    if a == [] {
      assert a + b == b;
    } else {
      FreeSpanAppend(a[1..], b);
      assert (a + b)[1..] == a[1..] + b;
    }
  }

  lemma {:induction false} Split(ts: seq<Tile>, k: nat)
    requires k < |ts|
    ensures ts == ts[..k] + [ts[k]] + ts[k + 1..]
  {
  }

  lemma {:induction false} Contiguous3(a: seq<Tile>, b: seq<Tile>, d: seq<Tile>, lo: nat)
    ensures Contiguous(a + b + d, lo) <==>
      Contiguous(a, lo) && Contiguous(b, lo + Span(a)) && Contiguous(d, lo + Span(a) + Span(b))
  {
    ContiguousAppend(a + b, d, lo);
    ContiguousAppend(a, b, lo);
    SpanAppend(a, b);
  }

  lemma {:induction false} Span3(a: seq<Tile>, b: seq<Tile>, d: seq<Tile>)
    ensures Span(a + b + d) == Span(a) + Span(b) + Span(d)
    ensures FreeSpan(a + b + d) == FreeSpan(a) + FreeSpan(b) + FreeSpan(d)
  {
    SpanAppend(a + b, d);
    SpanAppend(a, b);
    FreeSpanAppend(a + b, d);
    FreeSpanAppend(a, b);
  }

  lemma {:induction false} Coalesced3(a: seq<Tile>, b: seq<Tile>, d: seq<Tile>)
    requires b != []
    ensures Coalesced(a + b + d) <==>
      && Coalesced(a) && Coalesced(b) && Coalesced(d)
      && !(a != [] && a[|a| - 1].Free? && b[0].Free?)
      && !(d != [] && b[|b| - 1].Free? && d[0].Free?)
  {
    CoalescedAppend(a + b, d);
    CoalescedAppend(a, b);
    assert (a + b)[|a + b| - 1] == b[|b| - 1];
  }

  lemma {:induction false} Members3(a: seq<Tile>, b: seq<Tile>, d: seq<Tile>)
    ensures LiveSet(a + b + d) == LiveSet(a) + LiveSet(b) + LiveSet(d)
    ensures forall t :: t in a + b + d <==> t in a || t in b || t in d
  {
  }

  /** Replacing a middle by tiles that cover the same range keeps a tiling. */
  lemma {:induction false} Replace(c: Area, pre: seq<Tile>, old': seq<Tile>, new': seq<Tile>, post: seq<Tile>)
    requires c.Valid() && Tiling(c, pre + old' + post)
    requires Span(old') == Span(new') && Contiguous(new', Span(pre)) && TilesOk(c, new')
    ensures Tiling(c, pre + new' + post)
    ensures FreeSpan(pre + new' + post) - FreeSpan(new') == FreeSpan(pre + old' + post) - FreeSpan(old')
  {
    ReplaceShape(pre, old', new', post);
    ReplaceOk(c, pre, old', new', post);
  }

  lemma {:induction false} ReplaceShape(pre: seq<Tile>, old': seq<Tile>, new': seq<Tile>, post: seq<Tile>)
    requires Contiguous(pre + old' + post, 0)
    requires Span(old') == Span(new') && Contiguous(new', Span(pre))
    ensures Contiguous(pre + new' + post, 0) && Span(pre + new' + post) == Span(pre + old' + post)
    ensures FreeSpan(pre + new' + post) - FreeSpan(new') == FreeSpan(pre + old' + post) - FreeSpan(old')
  {
    Contiguous3(pre, old', post, 0);
    Contiguous3(pre, new', post, 0);
    Span3(pre, old', post);
    Span3(pre, new', post);
  }

  lemma {:induction false} ReplaceOk(c: Area, pre: seq<Tile>, old': seq<Tile>, new': seq<Tile>, post: seq<Tile>)
    requires c.Valid() && TilesOk(c, pre + old' + post) && TilesOk(c, new')
    ensures TilesOk(c, pre + new' + post)
  {
    Members3(pre, old', post);
    Members3(pre, new', post);
  }

  lemma {:induction false} OneTileOk(c: Area, t: Tile)
    requires c.Valid() && TileOk(c, t)
    ensures TilesOk(c, [t])
  {
  }

  /** A free tile needs no more than its start aligned and room for a node. */
  lemma {:induction false} FreeTileOk(c: Area, start: nat, size: nat, t: Tile)
    requires c.Valid() && TileOk(c, t) && start == t.start && size >= t.size
    ensures TilesOk(c, [Free(start, size)])
  {
    OneTileOk(c, Free(start, size));
  }

  lemma {:induction false} CarveOk(c: Area, t: Tile, size: nat, alignment: nat)
    requires c.Valid() && Representable(c, size, alignment) && TileOk(c, t)
    requires Fits(c, t, Rounded(c, size, alignment), Alignment(c, alignment))
    ensures TilesOk(c, Carve(c, t, Rounded(c, size, alignment), Alignment(c, alignment), size))
  {
    var a, r := Alignment(c, alignment), Rounded(c, size, alignment);
    RepresentableRounds(c, size, alignment);
    CalcPaddingIsLeast(c.data + t.start, a, c.HeaderSize());
    RestIsAligned(c, c.data + t.start + Padding(c, t.start, a), r, a);
  }

  lemma {:induction false} RestIsAligned(c: Area, ptr: nat, r: nat, a: nat)
    requires c.Valid() && IsPowerOfTwo(a) && c.maxAlign <= a && ptr % a == 0 && r % a == 0
    ensures (ptr + r) % c.maxAlign == 0
  {
    PowersDivide(c.maxAlign, a);
    DividesTransitive(c.maxAlign, a, ptr);
    DividesTransitive(c.maxAlign, a, r);
    MultiplesApart(ptr, r, c.maxAlign);
  }

  lemma {:induction false} CarveCovers(c: Area, t: Tile, rounded: nat, a: nat, orig: nat)
    requires a > 0 && Fits(c, t, rounded, a) && rounded > 0 && c.word > 0
    ensures var ts := Carve(c, t, rounded, a, orig);
      && Contiguous(ts, t.start) && Span(ts) == t.size && Coalesced(ts)
      && FreeSpan(ts) == t.size - ts[0].size && ts[0].Live? && LiveSet(ts) == {ts[0]}
  {
    var ts := Carve(c, t, rounded, a, orig);
    if |ts| == 2 {
      assert ts[1..] == [ts[1]] && ts[1..][1..] == [];
      SingleSpan(ts[1]);
    } else {
      SingleSpan(ts[0]);
      assert ts[1..] == [];
    }
  }

  /** Allocation keeps the tiling and adds one live block to it. */
  lemma {:induction false} AllocAtKeepsTiling(c: Area, ts: seq<Tile>, k: nat, size: nat, alignment: nat)
    requires c.Valid() && Representable(c, size, alignment)
    requires Tiling(c, ts) && Coalesced(ts) && k < |ts|
    requires Fits(c, ts[k], Rounded(c, size, alignment), Alignment(c, alignment))
    ensures var ts' := AllocAt(c, ts, k, Rounded(c, size, alignment), Alignment(c, alignment), size);
      && Tiling(c, ts') && Coalesced(ts')
      && k < |ts'| && ts'[k].Live? && ts'[k] !in ts
      && ts'[k].start == ts[k].start && ts'[k].End() <= ts[k].End()
      && LiveSet(ts') == LiveSet(ts) + {ts'[k]}
      && FreeSpan(ts') == FreeSpan(ts) - ts'[k].size
  {
    var a, r := Alignment(c, alignment), Rounded(c, size, alignment);
    var pre, t, post := ts[..k], ts[k], ts[k + 1..];
    var mid := Carve(c, t, r, a, size);
    Split(ts, k);
    TilePosition(ts, 0, k);
    RepresentableRounds(c, size, alignment);
    CarveOk(c, t, size, alignment);
    CarveCovers(c, t, r, a, size);
    SingleSpan(t);
    Replace(c, pre, [t], mid, post);
    Coalesced3(pre, [t], post);
    Coalesced3(pre, mid, post);
    Members3(pre, [t], post);
    Members3(pre, mid, post);
    StartOccursOnce(ts, k, mid[0]);
  }

  lemma {:induction false} SingleSpan(t: Tile)
    ensures Span([t]) == t.size && FreeSpan([t]) == (if t.Free? then t.size else 0)
  {
    assert [t][1..] == [];
  }

  /** The only tile of a contiguous sequence that starts where tile k does is tile k. */
  lemma {:induction false} StartOccursOnce(ts: seq<Tile>, k: nat, x: Tile)
    requires Contiguous(ts, 0) && k < |ts| && x.start == ts[k].start && x != ts[k]
    ensures x !in ts
  {
    TilesDisjoint(ts, 0);
  }

  lemma {:induction false} MergeOk(c: Area, ts: seq<Tile>, k: nat)
    requires c.Valid() && Tiling(c, ts)
    ensures var ts' := MergeAt(ts, k);
      Tiling(c, ts') && LiveSet(ts') == LiveSet(ts) && FreeSpan(ts') == FreeSpan(ts)
  {
    if k + 1 < |ts| && ts[k].Free? && ts[k + 1].Free? {
      var pre, old', post := ts[..k], [ts[k], ts[k + 1]], ts[k + 2..];
      var new' := [Free(ts[k].start, ts[k].size + ts[k + 1].size)];
      assert ts == pre + old' + post;
      TilePosition(ts, 0, k);
      assert old'[1..] == [ts[k + 1]];
      SingleSpan(ts[k + 1]);
      SingleSpan(new'[0]);
      FreeTileOk(c, ts[k].start, ts[k].size + ts[k + 1].size, ts[k]);
      Replace(c, pre, old', new', post);
      Members3(pre, old', post);
      Members3(pre, new', post);
    }
  }

  lemma {:induction false} ReleasedOk(c: Area, ts: seq<Tile>, k: nat)
    requires c.Valid() && Tiling(c, ts) && k < |ts| && ts[k].Live?
    ensures var ts' := Released(ts, k);
      Tiling(c, ts') && LiveSet(ts') == LiveSet(ts) - {ts[k]} && FreeSpan(ts') == FreeSpan(ts) + ts[k].size
  {
    var pre, t, post := ts[..k], ts[k], ts[k + 1..];
    var f := Free(t.start, t.size);
    Split(ts, k);
    TilePosition(ts, 0, k);
    SingleSpan(t);
    SingleSpan(f);
    FreeTileOk(c, t.start, t.size, t);
    Replace(c, pre, [t], [f], post);
    Members3(pre, [t], post);
    Members3(pre, [f], post);
    TileOccursOnce(ts, k);
  }

  lemma {:induction false} TileOccursOnce(ts: seq<Tile>, k: nat)
    requires Contiguous(ts, 0) && k < |ts|
    ensures ts[k] !in ts[..k] && ts[k] !in ts[k + 1..]
  {
    TilesDisjoint(ts, 0);
  }

  /** Merging on both sides of a released tile leaves no two free tiles touching. */
  lemma {:induction false} FreeAtCoalesces(ts: seq<Tile>, k: nat)
    requires Coalesced(ts) && k < |ts| && ts[k].Live?
    ensures Coalesced(FreeAt(ts, k))
  {
    var pre, t, post := ts[..k], ts[k], ts[k + 1..];
    Split(ts, k);
    Coalesced3(pre, [t], post);
    var g, rest := MergedRight(ts, k);
    if k > 0 && pre[k - 1].Free? {
      var h := Free(pre[k - 1].start, pre[k - 1].size + g.size);
      var right := pre + [g] + rest;
      assert right[k - 1] == pre[k - 1] && right[k] == g && right[k + 1..] == rest && right[..k - 1] == pre[..k - 1];
      assert FreeAt(ts, k) == pre[..k - 1] + [h] + rest;
      assert pre == pre[..k - 1] + [pre[k - 1]];
      CoalescedAppend(pre[..k - 1], [pre[k - 1]]);
      Coalesced3(pre[..k - 1], [h], rest);
    } else {
      Coalesced3(pre, [g], rest);
    }
  }

  lemma {:induction false} MergedRight(ts: seq<Tile>, k: nat) returns (g: Tile, rest: seq<Tile>)
    requires k < |ts| && Coalesced(ts[k + 1..])
    ensures MergeAt(Released(ts, k), k) == ts[..k] + [g] + rest
    ensures g.Free? && Coalesced(rest) && (rest == [] || !rest[0].Free?)
  {
    var post, rel := ts[k + 1..], Released(ts, k);
    assert rel[k] == Free(ts[k].start, ts[k].size) && rel[..k] == ts[..k] && rel[k + 1..] == post;
    if post != [] && post[0].Free? {
      assert rel[k + 1] == post[0] && rel[k + 2..] == post[1..];
      g, rest := Free(ts[k].start, ts[k].size + post[0].size), post[1..];
      assert post == [post[0]] + rest;
      CoalescedAppend([post[0]], rest);
    } else {
      g, rest := rel[k], post;
    }
  }

  /** Freeing keeps the tiling and removes exactly the freed block from it. */
  lemma {:induction false} FreeAtKeepsTiling(c: Area, ts: seq<Tile>, k: nat)
    requires c.Valid() && Tiling(c, ts) && Coalesced(ts) && k < |ts| && ts[k].Live?
    ensures var ts' := FreeAt(ts, k);
      && Tiling(c, ts') && Coalesced(ts')
      && LiveSet(ts') == LiveSet(ts) - {ts[k]}
      && FreeSpan(ts') == FreeSpan(ts) + ts[k].size
  {
    ReleasedOk(c, ts, k);
    MergeOk(c, Released(ts, k), k);
    if k > 0 {
      MergeOk(c, MergeAt(Released(ts, k), k), k - 1);
    }
    FreeAtCoalesces(ts, k);
  }
}
