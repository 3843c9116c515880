/**
 What free_list_alloc() makes of requests at the top of a size_t. Three computations can wrap:
 the rounding of the size, the sum with the padding in the search, and the same sum again when
 the block is taken. None of them is checked.
 */
module SizeLimits {
  import opened Bits
  import opened FreeListSpec

  /** Any size, and any alignment the padding computation can handle. */
  predicate Request(c: Area, size: nat, alignment: nat) {
    var a := Alignment(c, alignment);
    && c.Valid() && IsPowerOfTwo(a) && c.limit % a == 0 && c.HeaderSize() + a <= c.limit
    && Max(size, c.NodeSize()) < c.limit
  }

  /** The size rounded up, over the unbounded integers. */
  function Whole(c: Area, size: nat, alignment: nat): nat
    requires Request(c, size, alignment)
  {
    RoundUp(Max(size, c.NodeSize()), Alignment(c, alignment))
  }

  /** The bytes a node at `start` must really have. */
  function Need(c: Area, start: nat, size: nat, alignment: nat): nat
    requires Request(c, size, alignment)
  {
    Whole(c, size, alignment) + Padding(c, start, Alignment(c, alignment))
  }

  /** Rounding a request succeeds exactly up to the last multiple of its alignment in a size_t; beyond, it yields 0. */
  lemma {:induction false} RoundingWrapsIff(c: Area, size: nat, alignment: nat)
    requires Request(c, size, alignment)
    ensures var p, a := Max(size, c.NodeSize()), Alignment(c, alignment);
      && Rounded(c, size, alignment) == (if p <= c.limit - a then Whole(c, size, alignment) else 0)
      && (Whole(c, size, alignment) < c.limit <==> p <= c.limit - a)
      && Whole(c, size, alignment) <= c.limit && Whole(c, size, alignment) % a == 0
  {
    var p, a := Max(size, c.NodeSize()), Alignment(c, alignment);
    AlignForwardWraps(p, a, c.limit);
    RoundUpIsLeast(p, a);
    MultiplesApart(Whole(c, size, alignment), c.limit, a);
  }

  lemma {:induction false} PaddingBounds(c: Area, t: Tile, a: nat)
    requires c.Valid() && TileOk(c, t) && IsPowerOfTwo(a) && c.maxAlign <= a
    ensures c.HeaderSize() <= Padding(c, t.start, a) < c.HeaderSize() + a
    ensures Padding(c, t.start, a) % c.word == 0
  {
    var ptr, pad := c.data + t.start, Padding(c, t.start, a);
    CalcPaddingIsLeast(ptr, a, c.HeaderSize());
    PowersDivide(c.maxAlign, a);
    DividesTransitive(c.maxAlign, a, ptr + pad);
    MultiplesApart(ptr + pad, ptr, c.maxAlign);
    assert pad == (ptr + pad) - ptr;
    DividesTransitive(c.word, c.maxAlign, pad);
  }

  lemma {:induction false} WordDivides(c: Area, a: nat, x: nat)
    requires c.Valid() && IsPowerOfTwo(a) && c.maxAlign <= a && x % a == 0
    ensures x % c.word == 0
  {
    PowersDivide(c.maxAlign, a);
    DividesTransitive(c.maxAlign, a, x);
    DividesTransitive(c.word, c.maxAlign, x);
  }

  /** A multiple of w below 3w is at most 2w. */
  lemma {:induction false} BelowThree(x: nat, w: nat)
    requires w > 0 && x % w == 0 && x < 3 * w
    ensures x <= 2 * w
  {
    MultiplesApart(3 * w, x, w) by {
      ModUnique(3 * w, w, 3, 0);
    }
  }

  /** Once the sum has wrapped, what is left of it is at most the size of a node. */
  lemma {:induction false} WrappedSumIsSmall(c: Area, t: Tile, size: nat, alignment: nat)
    requires Request(c, size, alignment) && TileOk(c, t)
    requires Whole(c, size, alignment) < c.limit <= Need(c, t.start, size, alignment)
    ensures Need(c, t.start, size, alignment) - c.limit <= c.NodeSize()
  {
    var a, whole := Alignment(c, alignment), Whole(c, size, alignment);
    var pad := Padding(c, t.start, a);
    RoundingWrapsIff(c, size, alignment);
    MultiplesApart(whole, c.limit, a);
    PaddingBounds(c, t, a);
    WordDivides(c, a, whole);
    WordDivides(c, a, c.limit);
    MultiplesApart(whole, pad, c.word);
    MultiplesApart(whole + pad, c.limit, c.word);
    BelowThree(whole + pad - c.limit, c.word);
  }

  /** What required_space comes to, for every request. */
  lemma {:induction false} RequiredIs(c: Area, t: Tile, size: nat, alignment: nat)
    requires Request(c, size, alignment) && TileOk(c, t)
    ensures var a, need := Alignment(c, alignment), Need(c, t.start, size, alignment);
      Required(c, t.start, Rounded(c, size, alignment), a) ==
        if Whole(c, size, alignment) == c.limit then Padding(c, t.start, a)
        else if need < c.limit then need
        else need - c.limit
  {
    var a, need := Alignment(c, alignment), Need(c, t.start, size, alignment);
    RoundingWrapsIff(c, size, alignment);
    PaddingBounds(c, t, a);
    if Whole(c, size, alignment) == c.limit {
      ModUnique(Padding(c, t.start, a), c.limit, 0, Padding(c, t.start, a));
    } else if need < c.limit {
      ModUnique(need, c.limit, 0, need);
    } else {
      WrappedSumIsSmall(c, t, size, alignment);
      ModUnique(need, c.limit, 1, need - c.limit);
    }
  }

  /** The test that the source makes, and the one it should make. */
  predicate Granted(c: Area, t: Tile, size: nat, alignment: nat)
    requires Request(c, size, alignment)
  {
    Passes(c, t, Rounded(c, size, alignment), Alignment(c, alignment))
  }

  predicate HasRoom(c: Area, t: Tile, size: nat, alignment: nat)
    requires Request(c, size, alignment)
  {
    Fits(c, t, Whole(c, size, alignment), Alignment(c, alignment))
  }

  /**
   The search refuses no node that has room. It grants one that has not exactly when the sum of
   the rounded size and the padding leaves a size_t, and the rounding did not, or did and the
   node at least has room for the padding.
   */
  lemma {:induction false} WronglyGrantedIff(c: Area, t: Tile, size: nat, alignment: nat)
    requires Request(c, size, alignment) && t.Free? && TileOk(c, t) && t.size < c.limit
    ensures HasRoom(c, t, size, alignment) ==> Granted(c, t, size, alignment)
    ensures Granted(c, t, size, alignment) && !HasRoom(c, t, size, alignment) <==>
      && Need(c, t.start, size, alignment) >= c.limit
      && (Whole(c, size, alignment) < c.limit || Padding(c, t.start, Alignment(c, alignment)) <= t.size)
  {
    RequiredIs(c, t, size, alignment);
    RoundingWrapsIff(c, size, alignment);
    if Whole(c, size, alignment) < c.limit <= Need(c, t.start, size, alignment) {
      WrappedSumIsSmall(c, t, size, alignment);
    }
  }

  /** For a node that can hold the padding: the test is right exactly when the sum fits a size_t. */
  lemma {:induction false} TestIsRightIff(c: Area, t: Tile, size: nat, alignment: nat)
    requires Request(c, size, alignment) && t.Free? && TileOk(c, t) && t.size < c.limit
    requires Padding(c, t.start, Alignment(c, alignment)) <= t.size
    ensures (Granted(c, t, size, alignment) <==> HasRoom(c, t, size, alignment))
      <==> Need(c, t.start, size, alignment) < c.limit
  {
    WronglyGrantedIff(c, t, size, alignment);
  }

  // ---------- the block that is taken ----------

  /** The size of the block: what is required, or all of the node when too little would be left. */
  function Block(c: Area, t: Tile, size: nat, alignment: nat): nat
    requires Request(c, size, alignment)
  {
    var required := Required(c, t.start, Rounded(c, size, alignment), Alignment(c, alignment));
    if t.size - required >= c.NodeSize() + c.NodeSize() then required else t.size
  }

  /** The bytes from the address that is returned to the end of the block. */
  function Room(c: Area, t: Tile, size: nat, alignment: nat): int
    requires Request(c, size, alignment)
  {
    Block(c, t, size, alignment) - Padding(c, t.start, Alignment(c, alignment))
  }

  /** For a representable request this is the block of the step function. */
  lemma {:induction false} BlockIsCarved(c: Area, t: Tile, size: nat, alignment: nat)
    requires Request(c, size, alignment) && Representable(c, size, alignment)
    requires Fits(c, t, Rounded(c, size, alignment), Alignment(c, alignment))
    ensures var b := Carve(c, t, Rounded(c, size, alignment), Alignment(c, alignment), size)[0];
      b.size == Block(c, t, size, alignment) && b.End() - b.ptr == Room(c, t, size, alignment)
  {
    TestIsExact(c, t, size, alignment);
  }

  /** A granted block has room for the rounded size if and only if the sum fits a size_t. */
  lemma {:induction false} RoomIff(c: Area, t: Tile, size: nat, alignment: nat)
    requires Request(c, size, alignment) && TileOk(c, t) && t.size < c.limit && Granted(c, t, size, alignment)
    ensures Room(c, t, size, alignment) >= Whole(c, size, alignment) <==> Need(c, t.start, size, alignment) < c.limit
  {
    RequiredIs(c, t, size, alignment);
    RoundingWrapsIff(c, size, alignment);
  }

  // ---------- two requests that go wrong ----------

  /**
   Rounding wraps, as it does for SIZE_MAX bytes: any node that holds the padding grants the
   request, and what it gets is less than two nodes.
   */
  lemma {:induction false} WrappedRequest(c: Area, t: Tile, size: nat, alignment: nat)
    requires Request(c, size, alignment) && size > c.limit - Alignment(c, alignment)
    requires t.Free? && TileOk(c, t) && t.size < c.limit && Padding(c, t.start, Alignment(c, alignment)) <= t.size
    ensures Granted(c, t, size, alignment) && Room(c, t, size, alignment) < 2 * c.NodeSize()
  {
    RoundingWrapsIff(c, size, alignment);
    RequiredIs(c, t, size, alignment);
  }

  lemma {:induction false} PaddingOnBoundary(c: Area, start: nat, a: nat)
    requires IsPowerOfTwo(a) && (c.data + start) % a == 0 && 0 < c.HeaderSize() <= a
    ensures Padding(c, start, a) == a
  {
    var ptr, pad := c.data + start, Padding(c, start, a);
    CalcPaddingIsLeast(ptr, a, c.HeaderSize());
    ModUnique(a, a, 1, 0);
    MultiplesApart(ptr, a, a);
    assert Pads(ptr, a, c.HeaderSize(), a);
    MultiplesApart(ptr + pad, ptr, a);
  }

  lemma {:induction false} LastMultiple(c: Area, size: nat, a: nat)
    requires Request(c, size, a) && c.maxAlign <= a && size + a == c.limit && c.NodeSize() <= size
    ensures Rounded(c, size, a) == size && Whole(c, size, a) == size
  {
    ModUnique(a, a, 1, 0);
    MultiplesApart(c.limit, a, a);
    RoundingWrapsIff(c, size, a);
  }

  /** A request one alignment short of the top, and a node that starts on that alignment. */
  ghost predicate AtTheTop(c: Area, t: Tile, size: nat, a: nat) {
    && Request(c, size, a) && 0 < c.maxAlign <= a && size + a == c.limit && c.NodeSize() <= size && c.HeaderSize() <= a
    && t.Free? && TileOk(c, t) && t.size < c.limit && (c.data + t.start) % a == 0
  }

  /**
   Rounding does not wrap and the sum does: the bytes required come to 0, every node is granted,
   and it is split at its own start.
   */
  lemma {:induction false} WrappedSum(c: Area, t: Tile, size: nat, a: nat)
    requires AtTheTop(c, t, size, a)
    ensures Rounded(c, size, a) == size && Need(c, t.start, size, a) == c.limit && Granted(c, t, size, a)
    ensures t.size >= 2 * c.NodeSize() ==> Block(c, t, size, a) == 0 && Room(c, t, size, a) + a == 0
  {
    PaddingOnBoundary(c, t.start, a);
    LastMultiple(c, size, a);
    RequiredIs(c, t, size, a);
  }
}
