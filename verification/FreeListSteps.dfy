/**
 The memory effect of each allocator operation: the stores the source performs turn the image
 of the old tiling into the image of the new one.
 */
module FreeListSteps {
  import opened FreeListSpec
  import opened FreeListMemory

  /** The memory and the head represent the tiling ts. */
  ghost predicate Image(c: Area, m: seq<int>, head: int, ts: seq<Tile>) {
    |m| == c.size && head == FirstFree(ts, NULL) && Chain(c, m, ts, NULL)
  }

  /** What the lemmas need of a tiling, without its alignment facts. */
  ghost predicate Shape(c: Area, ts: seq<Tile>) {
    c.word >= 1 && Contiguous(ts, 0) && Span(ts) == c.size && AllShaped(c, ts)
  }

  lemma {:induction false} TilingShape(c: Area, ts: seq<Tile>)
    requires c.Valid() && Tiling(c, ts)
    ensures Shape(c, ts)
  {
    TilesAreShaped(c, ts);
  }

  /** The three pieces around tile k. */
  lemma {:induction false} Pieces(c: Area, m: seq<int>, head: int, ts: seq<Tile>, k: nat)
    requires Image(c, m, head, ts) && Shape(c, ts) && k < |ts|
    ensures var pre, t, post := ts[..k], ts[k], ts[k + 1..];
      && Chain(c, m, pre, FirstFree([t], FirstFree(post, NULL)))
      && head == FirstFree(pre, FirstFree([t], FirstFree(post, NULL)))
      && Stored(c, m, t, FirstFree(post, NULL)) && Shaped(c, t)
      && Chain(c, m, post, NULL)
      && Contiguous(pre, 0) && Span(pre) == t.start && AllShaped(c, pre)
      && Contiguous(post, t.End()) && t.End() + Span(post) == c.size && AllShaped(c, post)
      && t.size > 0
  {
    var pre, t, post := ts[..k], ts[k], ts[k + 1..];
    Split(ts, k);
    TilePosition(ts, 0, k);
    Chain3(c, m, pre, [t], post);
    ChainOne(c, m, t, FirstFree(post, NULL));
  }

  /** Put an image together from its pieces. */
  lemma {:induction false} Assemble(c: Area, m: seq<int>, head: int, pre: seq<Tile>, mid: seq<Tile>, post: seq<Tile>)
    requires |m| == c.size
    requires Chain(c, m, pre, FirstFree(mid, FirstFree(post, NULL))) && Chain(c, m, post, NULL)
    requires Chain(c, m, mid, FirstFree(post, NULL))
    requires head == FirstFree(pre, FirstFree(mid, FirstFree(post, NULL)))
    ensures Image(c, m, head, pre + mid + post)
  {
    Chain3(c, m, pre, mid, post);
  }

  /** What a caller writes in its own payload leaves the list and every header as they are. */
  lemma {:induction false} PayloadWriteKeepsImage(c: Area, m: seq<int>, head: int, ts: seq<Tile>, k: nat, m': seq<int>)
    requires Image(c, m, head, ts) && Shape(c, ts) && k < |ts| && ts[k].Live?
    requires SameOutside(m, m', ts[k].ptr, ts[k].End())
    ensures Image(c, m', head, ts)
    ensures KeepsLive(ts, k, m, m')
  {
    Pieces(c, m, head, ts, k);
    var pre, t, post := ts[..k], ts[k], ts[k + 1..];
    var tail := FirstFree(post, NULL);
    ChainFrame(c, m, m', pre, 0, FirstFree([t], tail));
    ChainFrame(c, m, m', post, t.End(), NULL);
    assert Stored(c, m', t, tail);
    ChainOne(c, m', t, tail);
    Assemble(c, m', head, pre, [t], post);
    Split(ts, k);
    assert SameOutside(m, m', t.start, t.End());
    ChangesInside(ts, k, k, m, m');
  }

  /** The predecessor's next field, when there is a predecessor, is inside the memory. */
  lemma {:induction false} PrevInside(c: Area, m: seq<int>, ts: seq<Tile>, k: nat)
    requires |m| == c.size && Shape(c, ts) && k < |ts|
    ensures var prev := LastFree(ts[..k], NULL);
      prev == NULL || (0 <= prev && prev + c.NodeSize() <= ts[k].start <= |m| && OnWord(c.word, prev))
  {
    TilePosition(ts, 0, k);
    LastFreeWithin(c, ts[..k], 0, NULL);
  }

  /**
   Replace tile k by the tiles `mid`: write inside tile k (giving mIn), point its predecessor
   at v, write inside tile k again (giving m'). If mid is stored there and starts the list at
   v, the result is the image of the new tiling.
   */
  lemma {:induction false} Splice(
      c: Area, m: seq<int>, head: int, ts: seq<Tile>, k: nat, mIn: seq<int>, v: int, m': seq<int>, mid: seq<Tile>)
    requires Image(c, m, head, ts) && Shape(c, ts) && k < |ts|
    requires SameOutside(m, mIn, ts[k].start, ts[k].End())
    requires var prev := LastFree(ts[..k], NULL); prev == NULL || (0 <= prev && prev + c.word <= |m|)
    requires SameOutside(LinkMem(mIn, c.word, LastFree(ts[..k], NULL), v), m', ts[k].start, ts[k].End())
    requires Chain(c, m', mid, FirstFree(ts[k + 1..], NULL)) && v == FirstFree(mid, FirstFree(ts[k + 1..], NULL))
    ensures Image(c, m', LinkHead(head, LastFree(ts[..k], NULL), v), ts[..k] + mid + ts[k + 1..])
  {
    Pieces(c, m, head, ts, k);
    PrevInside(c, m, ts, k);
    var pre, t, post := ts[..k], ts[k], ts[k + 1..];
    var tail := FirstFree([t], FirstFree(post, NULL));
    var linked := LinkMem(mIn, c.word, LastFree(pre, NULL), v);
    ChainFrame(c, m, mIn, pre, 0, tail);
    Relink(c, mIn, pre, 0, tail, v);
    ChainFrame(c, linked, m', pre, 0, v);
    ChainFrame(c, m, m', post, t.End(), NULL);
    RelinkHead(c, pre, 0, head, tail, v);
    Assemble(c, m', LinkHead(head, LastFree(pre, NULL), v), pre, mid, post);
  }

  // ---------- allocation ----------

  /** The three stores of the allocation header of block b. */
  function StoreHeader(c: Area, m: seq<int>, b: Tile): (r: seq<int>)
    requires b.Live? && Shaped(c, b) && b.End() <= |m|
    ensures SameOutside(m, r, b.start, b.End()) && Stored(c, r, b, NULL)
  {
    var w, header := c.word, b.ptr - c.HeaderSize();
    var m1 := StoreWord(m, w, header, b.orig);
    var m2 := StoreWord(m1, w, header + w, b.size);
    StoreWord(m2, w, header + 2 * w, header - b.start)
  }

  /** The memory after block b took a whole node whose predecessor is prev. */
  function WholeMem(c: Area, m: seq<int>, prev: int, b: Tile): (r: seq<int>)
    requires b.Live? && Shaped(c, b) && b.End() <= |m|
    requires prev == NULL || (0 <= prev && prev + c.word <= |m|)
    ensures |r| == |m|
  {
    StoreHeader(c, LinkMem(m, c.word, prev, m[b.start]), b)
  }

  /** The memory after an allocation that uses the whole of tile k. */
  lemma {:induction false} AllocWholeImage(c: Area, m: seq<int>, head: int, ts: seq<Tile>, k: nat, b: Tile)
    requires Image(c, m, head, ts) && Shape(c, ts) && k < |ts| && ts[k].Free?
    requires b.Live? && Shaped(c, b) && b.start == ts[k].start && b.size == ts[k].size && b.End() <= |m|
    requires var prev := LastFree(ts[..k], NULL); prev == NULL || (0 <= prev && prev + c.word <= |m|)
    ensures var prev := LastFree(ts[..k], NULL);
      && Image(c, WholeMem(c, m, prev, b), LinkHead(head, prev, m[b.start]), ts[..k] + [b] + ts[k + 1..])
      && KeepsLive(ts, NULL, m, WholeMem(c, m, prev, b))
  {
    StoredAt(c, m, ts, k);
    var prev, next := LastFree(ts[..k], NULL), m[b.start];
    var m' := WholeMem(c, m, prev, b);
    ChainOne(c, m', b, next);
    Splice(c, m, head, ts, k, m, next, m', [b]);
    SpliceKeepsLive(c, ts, k, NULL, m, m, next, m');
  }

  /** The stores that create the remainder node and link it after the node being taken. */
  function StoreRemainder(m: seq<int>, w: nat, node: nat, rest: nat, size: int): (r: seq<int>)
    requires w >= 1 && node + w <= rest && rest + 2 * w <= |m|
    ensures SameOutside(m, r, node, rest + 2 * w)
    ensures r[rest] == m[node] && r[rest + w] == size && r[node] == rest
  {
    var m1 := StoreWord(m, w, rest + w, size);
    var m2 := StoreWord(m1, w, rest, m[node]);
    StoreWord(m2, w, node, rest)
  }

  /** What is left of a node of n bytes once block b was taken from it. */
  function Remainder(b: Tile, n: nat): Tile
    requires b.size <= n
  {
    Free(b.End(), n - b.size)
  }

  /** The memory after block b was cut from a node of n bytes whose predecessor is prev. */
  function SplitMem(c: Area, m: seq<int>, prev: int, b: Tile, n: nat): (r: seq<int>)
    requires b.Live? && Shaped(c, b) && b.size + c.NodeSize() <= n && b.start + n <= |m|
    requires prev == NULL || (0 <= prev && prev + c.word <= |m|)
    ensures |r| == |m|
  {
    StoreHeader(c, LinkMem(StoreRemainder(m, c.word, b.start, b.End(), n - b.size), c.word, prev, b.End()), b)
  }

  lemma {:induction false} SplitStores(c: Area, m: seq<int>, b: Tile, n: nat, prev: int)
    requires b.Live? && Shaped(c, b) && b.size + c.NodeSize() <= n && b.start + n <= |m|
    requires prev == NULL || (0 <= prev && prev + c.NodeSize() <= b.start)
    ensures var m1 := StoreRemainder(m, c.word, b.start, b.End(), n - b.size);
      && SameOutside(m, m1, b.start, b.start + n)
      && SameOutside(LinkMem(m1, c.word, prev, b.End()), SplitMem(c, m, prev, b, n), b.start, b.start + n)
      && Stored(c, SplitMem(c, m, prev, b, n), b, NULL)
      && Stored(c, SplitMem(c, m, prev, b, n), Remainder(b, n), m[b.start])
  {
  }

  /** The memory after an allocation that splits tile k. */
  lemma {:induction false} AllocSplitImage(c: Area, m: seq<int>, head: int, ts: seq<Tile>, k: nat, b: Tile)
    requires Image(c, m, head, ts) && Shape(c, ts) && k < |ts| && ts[k].Free?
    requires b.Live? && Shaped(c, b) && b.start == ts[k].start
    requires b.size + c.NodeSize() <= ts[k].size && b.start + ts[k].size <= |m|
    requires var prev := LastFree(ts[..k], NULL); prev == NULL || (0 <= prev && prev + c.word <= |m|)
    ensures var prev, n := LastFree(ts[..k], NULL), ts[k].size;
      && Image(c, SplitMem(c, m, prev, b, n), LinkHead(head, prev, b.End()), ts[..k] + [b, Remainder(b, n)] + ts[k + 1..])
      && KeepsLive(ts, NULL, m, SplitMem(c, m, prev, b, n))
  {
    StoredAt(c, m, ts, k);
    PrevInside(c, m, ts, k);
    var prev, n, tail := LastFree(ts[..k], NULL), ts[k].size, FirstFree(ts[k + 1..], NULL);
    var m1 := StoreRemainder(m, c.word, b.start, b.End(), n - b.size);
    var m' := SplitMem(c, m, prev, b, n);
    SplitStores(c, m, b, n, prev);
    ChainTwo(c, m', b, Remainder(b, n), tail);
    Splice(c, m, head, ts, k, m1, b.End(), m', [b, Remainder(b, n)]);
    SpliceKeepsLive(c, ts, k, NULL, m, m1, b.End(), m');
  }

  lemma {:induction false} ChainTwo(c: Area, m: seq<int>, b: Tile, f: Tile, tail: int)
    requires b.Live? && f.Free?
    ensures Chain(c, m, [b, f], tail) <==> Stored(c, m, b, NULL) && Stored(c, m, f, tail)
    ensures FirstFree([b, f], tail) == f.start
  {
    assert [b, f][1..] == [f];
    ChainOne(c, m, f, tail);
  }

  // ---------- freeing ----------

  /** The memory after the freed block's node was written and linked in. */
  lemma {:induction false} ReleaseImage(c: Area, m: seq<int>, head: int, ts: seq<Tile>, k: nat, mIn: seq<int>)
    requires Image(c, m, head, ts) && Shape(c, ts) && k < |ts|
    requires SameOutside(m, mIn, ts[k].start, ts[k].End()) && Shaped(c, ts[k]) && ts[k].End() <= |m|
    requires Stored(c, mIn, Free(ts[k].start, ts[k].size), FirstFree(ts[k + 1..], NULL))
    requires var prev := LastFree(ts[..k], NULL); prev == NULL || (0 <= prev && prev + c.word <= |m|)
    ensures var prev, s := LastFree(ts[..k], NULL), ts[k].start;
      Image(c, LinkMem(mIn, c.word, prev, s), LinkHead(head, prev, s), Released(ts, k))
  {
    PrevInside(c, m, ts, k);
    var prev, s, tail := LastFree(ts[..k], NULL), ts[k].start, FirstFree(ts[k + 1..], NULL);
    var m' := LinkMem(mIn, c.word, prev, s);
    var f := Free(s, ts[k].size);
    assert Stored(c, m', f, tail);
    ChainOne(c, m', f, tail);
    Splice(c, m, head, ts, k, mIn, s, m', [f]);
  }

  /** The list without the block being freed: what the walk of free_list_free() sees. */
  lemma {:induction false} WalkedList(c: Area, m: seq<int>, head: int, ts: seq<Tile>, k: nat, m1: seq<int>)
    requires Image(c, m, head, ts) && Shape(c, ts) && k < |ts| && ts[k].Live?
    requires SameOutside(m, m1, ts[k].start, ts[k].End())
    ensures Chain(c, m1, ts[..k] + ts[k + 1..], NULL) && head == FirstFree(ts[..k] + ts[k + 1..], NULL)
  {
    Pieces(c, m, head, ts, k);
    var pre, post := ts[..k], ts[k + 1..];
    ChainOne(c, m, ts[k], FirstFree(post, NULL));
    ChainFrame(c, m, m1, pre, 0, FirstFree(post, NULL));
    ChainFrame(c, m, m1, post, ts[k].End(), NULL);
    ChainAppend(c, m1, pre, post, NULL);
    FirstFreeAppend(pre, post, NULL);
  }

  /** What the nodes of two free tiles that touch hold. */
  lemma {:induction false} TouchingNodes(c: Area, m: seq<int>, head: int, ts: seq<Tile>, k: nat)
    requires Image(c, m, head, ts) && Shape(c, ts) && k + 1 < |ts| && ts[k].Free? && ts[k + 1].Free?
    ensures ts[k].End() == ts[k + 1].start && ts[k + 1].End() <= |m| && Shaped(c, ts[k]) && Shaped(c, ts[k + 1])
    ensures Stored(c, m, ts[k], ts[k + 1].start) && Stored(c, m, ts[k + 1], FirstFree(ts[k + 2..], NULL))
  {
    StoredAt(c, m, ts, k);
    StoredAt(c, m, ts, k + 1);
    TilesInOrder(ts, 0, k, k + 1);
    TilePosition(ts, 0, k + 1);
    assert ts[k] in ts && ts[k + 1] in ts;
    assert ts[k + 1..][0] == ts[k + 1];
  }

  /** Two free tiles that touch, joined by free_list_coalescence(). */
  lemma {:induction false} MergeImage(c: Area, m: seq<int>, head: int, ts: seq<Tile>, k: nat, m': seq<int>)
    requires Image(c, m, head, ts) && Shape(c, ts) && k + 1 < |ts| && ts[k].Free? && ts[k + 1].Free?
    requires SameOutside(m, m', ts[k].start, ts[k].End())
    requires Stored(c, m', Free(ts[k].start, ts[k].size + ts[k + 1].size), FirstFree(ts[k + 2..], NULL))
    ensures Image(c, m', head, MergeAt(ts, k))
  {
    TouchingNodes(c, m, head, ts, k);
    Pieces(c, m, head, ts, k);
    Pieces(c, m, head, ts, k + 1);
    assert ts[k + 1 + 1..] == ts[k + 2..];
    var pre, t, u, post := ts[..k], ts[k], ts[k + 1], ts[k + 2..];
    var g, tail := Free(t.start, t.size + u.size), FirstFree(post, NULL);
    ChainFrame(c, m, m', pre, 0, t.start);
    ChainFrame(c, m, m', post, u.End(), NULL);
    ChainOne(c, m', g, tail);
    ChainOne(c, m, t, FirstFree(ts[k + 1..], NULL));
    Assemble(c, m', head, pre, [g], post);
  }

  /** The memory after the node `right` was joined to the node `left`. */
  function JoinMem(m: seq<int>, w: nat, left: nat, right: nat): (r: seq<int>)
    requires w >= 1 && left + 2 * w <= right && right + 2 * w <= |m|
    ensures SameOutside(m, r, left, left + 2 * w)
    ensures r[left] == m[right] && r[left + w] == m[left + w] + m[right + w]
  {
    var m1 := StoreWord(m, w, left + w, m[left + w] + m[right + w]);
    StoreWord(m1, w, left, m1[right])
  }

  /** The two stores that join them; no live block sees them. */
  lemma {:induction false} AbsorbStores(c: Area, m: seq<int>, head: int, ts: seq<Tile>, k: nat)
    requires Image(c, m, head, ts) && Shape(c, ts) && k + 1 < |ts| && ts[k].Free? && ts[k + 1].Free?
    ensures var left, right := ts[k].start, ts[k + 1].start;
      && left + c.NodeSize() <= right && right + c.NodeSize() <= |m|
      && var m' := JoinMem(m, c.word, left, right);
      && Image(c, m', head, MergeAt(ts, k)) && KeepsLive(ts, NULL, m, m')
  {
    TouchingNodes(c, m, head, ts, k);
    var m' := JoinMem(m, c.word, ts[k].start, ts[k + 1].start);
    assert SameOutside(m, m', ts[k].start, ts[k].End());
    MergeImage(c, m, head, ts, k, m');
    ChangesInside(ts, NULL, k, m, m');
  }

  /** A free tile touches the next node of the list just when its right neighbour is free. */
  lemma {:induction false} TouchesNext(c: Area, ts: seq<Tile>, k: nat)
    requires Shape(c, ts) && k < |ts|
    ensures (FirstFree(ts[k + 1..], NULL) != NULL && ts[k].End() == FirstFree(ts[k + 1..], NULL))
      <==> (k + 1 < |ts| && ts[k + 1].Free?)
  {
    TilePosition(ts, 0, k);
    var post := ts[k + 1..];
    FirstFreeWithin(post, ts[k].End(), NULL);
    if post != [] && !post[0].Free? {
      FirstFreeWithin(post[1..], ts[k].End() + post[0].size, NULL);
    }
  }

  /** The previous node of the list touches tile k just when its left neighbour is free. */
  lemma {:induction false} TouchesPrev(c: Area, m: seq<int>, head: int, ts: seq<Tile>, k: nat)
    requires Image(c, m, head, ts) && Shape(c, ts) && k < |ts|
    ensures var prev := LastFree(ts[..k], NULL);
      (prev != NULL && prev + At(m, prev + c.word) == ts[k].start) <==> (k > 0 && ts[k - 1].Free?)
    ensures k > 0 && ts[k - 1].Free? ==> LastFree(ts[..k], NULL) == ts[k - 1].start
  {
    if k > 0 && ts[k - 1].Free? {
      assert ts[..k] == ts[..k - 1] + [ts[k - 1]] && [ts[k - 1]][1..] == [];
      LastFreeAppend(ts[..k - 1], [ts[k - 1]], NULL);
      StoredAt(c, m, ts, k - 1);
      TilesInOrder(ts, 0, k - 1, k);
    }
    if LastFree(ts[..k], NULL) != NULL {
      var q := LastFreeIsTile(ts, k);
      StoredAt(c, m, ts, q);
      TilesInOrder(ts, 0, q, k);
      if q + 1 < k {
        TilesInOrder(ts, 0, q, q + 1);
        TilesInOrder(ts, 0, q + 1, k);
        TilePosition(ts, 0, q + 1);
      }
    }
  }

  // ---------- the two outcomes of an allocation, put together ----------

  /** Writes in tile k, a link, writes in tile k: nothing another live block holds. */
  lemma {:induction false} SpliceKeepsLive(
      c: Area, ts: seq<Tile>, k: nat, free: int, m: seq<int>, mIn: seq<int>, v: int, m': seq<int>)
    requires Shape(c, ts) && k < |ts| && |m| == c.size && (ts[k].Free? || free == k)
    requires SameOutside(m, mIn, ts[k].start, ts[k].End())
    requires var prev := LastFree(ts[..k], NULL); prev == NULL || (0 <= prev && prev + c.word <= |m|)
    requires SameOutside(LinkMem(mIn, c.word, LastFree(ts[..k], NULL), v), m', ts[k].start, ts[k].End())
    ensures KeepsLive(ts, free, m, m')
  {
    var linked := LinkMem(mIn, c.word, LastFree(ts[..k], NULL), v);
    ChangesInside(ts, free, k, m, mIn);
    LinkKeepsLive(c, ts, free, k, mIn, v);
    ChangesInside(ts, free, k, linked, m');
    KeepsLiveTrans(ts, free, m, mIn, linked);
    KeepsLiveTrans(ts, free, m, linked, m');
  }

  /** What the node that was found holds, and where the stores may go. */
  lemma {:induction false} NodeFacts(c: Area, m: seq<int>, head: int, ts: seq<Tile>, k: nat)
    requires c.Valid() && Tiling(c, ts) && Image(c, m, head, ts) && k < |ts|
    ensures Shape(c, ts) && ts[k].End() <= |m| && Shaped(c, ts[k])
    ensures ts[k].Free? ==> m[ts[k].start + c.word] == ts[k].size && m[ts[k].start] == FirstFree(ts[k + 1..], NULL)
    ensures var prev := LastFree(ts[..k], NULL);
      prev == NULL || (0 <= prev && prev + c.NodeSize() <= ts[k].start && OnWord(c.word, prev))
  {
    TilingShape(c, ts);
    TilePosition(ts, 0, k);
    PrevInside(c, m, ts, k);
    StoredAt(c, m, ts, k);
    assert ts[k] in ts;
  }

  lemma {:induction false} CarvedShape(c: Area, t: Tile, size: nat, alignment: nat)
    requires c.Valid() && Representable(c, size, alignment) && TileOk(c, t)
    requires Fits(c, t, Rounded(c, size, alignment), Alignment(c, alignment))
    ensures var mid := Carve(c, t, Rounded(c, size, alignment), Alignment(c, alignment), size);
      && Shaped(c, mid[0]) && mid[0].Live? && mid[0].start == t.start && mid[0].orig == size
      && (mid[0].size < t.size ==> OnWord(c.word, mid[0].End()))
  {
    var mid := Carve(c, t, Rounded(c, size, alignment), Alignment(c, alignment), size);
    CarveOk(c, t, size, alignment);
    TilesAreShaped(c, mid);
    assert mid[0] in mid;
    if |mid| > 1 {
      assert Shaped(c, mid[1]);
    }
  }

  /** What the search found and Carve cut: the facts the stores rely on. */
  ghost predicate Takeable(c: Area, m: seq<int>, prev: int, b: Tile, n: nat) {
    && b.Live? && Shaped(c, b) && b.start + n <= |m|
    && (b.size == n || b.size + c.NodeSize() <= n)
    && (prev == NULL || (0 <= prev && prev + c.NodeSize() <= b.start && OnWord(c.word, prev)))
    && m[b.start + c.word] == n && (b.size < n ==> OnWord(c.word, b.End()))
  }

  /** The memory after what is left of a node of n bytes has become a node of its own. */
  ghost function CutMem(c: Area, m: seq<int>, prev: int, b: Tile, n: nat): (r: seq<int>)
    requires Takeable(c, m, prev, b, n)
    ensures |r| == |m| && r[b.start] == if b.size < n then b.End() else m[b.start]
  {
    if b.size < n then StoreRemainder(m, c.word, b.start, b.End(), n - b.size) else m
  }

  /** The memory after block b was taken from that node, whole or in part. */
  ghost function TakenMem(c: Area, m: seq<int>, prev: int, b: Tile, n: nat): seq<int>
    requires Takeable(c, m, prev, b, n)
  {
    WholeMem(c, CutMem(c, m, prev, b, n), prev, b)
  }

  ghost function TakenHead(c: Area, m: seq<int>, head: int, prev: int, b: Tile, n: nat): int
    requires Takeable(c, m, prev, b, n)
  {
    LinkHead(head, prev, CutMem(c, m, prev, b, n)[b.start])
  }

  /** The search found `node`, of n bytes, with this padding; b is the block it will hold. */
  ghost predicate Selected(
      c: Area, m: seq<int>, node: int, padding: nat, prev: int, rounded: nat, orig: nat, b: Tile, n: nat) {
    && Takeable(c, m, prev, b, n)
    && node == b.start && c.HeaderSize() <= padding && b.ptr == node + padding && b.orig == orig
    && rounded + padding < c.limit && rounded + padding <= n
    && b.size == if n - (rounded + padding) >= c.NodeSize() + c.NodeSize() then rounded + padding else n
  }

  lemma {:induction false} CarvedIsSelected(
      c: Area, m: seq<int>, head: int, ts: seq<Tile>, k: nat, size: nat, alignment: nat)
    requires c.Valid() && Tiling(c, ts) && Image(c, m, head, ts) && k < |ts| && Representable(c, size, alignment)
    requires Fits(c, ts[k], Rounded(c, size, alignment), Alignment(c, alignment))
    ensures var r, a := Rounded(c, size, alignment), Alignment(c, alignment);
      var b := Carve(c, ts[k], r, a, size)[0];
      Selected(c, m, ts[k].start, Padding(c, ts[k].start, a), LastFree(ts[..k], NULL), r, size, b, ts[k].size)
  {
    var r, a := Rounded(c, size, alignment), Alignment(c, alignment);
    var mid := Carve(c, ts[k], r, a, size);
    NodeFacts(c, m, head, ts, k);
    CarvedShape(c, ts[k], size, alignment);
    RepresentableRounds(c, size, alignment);
    CalcPaddingIsLeast(c.data + ts[k].start, a, c.HeaderSize());
  }

  /** Taking the block that Carve cuts from tile k gives the image of the new tiling. */
  lemma {:induction false} Take(c: Area, m: seq<int>, head: int, ts: seq<Tile>, k: nat, rounded: nat, a: nat, orig: nat)
    requires Image(c, m, head, ts) && Shape(c, ts) && k < |ts| && a > 0 && Fits(c, ts[k], rounded, a)
    requires Takeable(c, m, LastFree(ts[..k], NULL), Carve(c, ts[k], rounded, a, orig)[0], ts[k].size)
    ensures var b, prev, n := Carve(c, ts[k], rounded, a, orig)[0], LastFree(ts[..k], NULL), ts[k].size;
      && Image(c, TakenMem(c, m, prev, b, n), TakenHead(c, m, head, prev, b, n), AllocAt(c, ts, k, rounded, a, orig))
      && KeepsLive(ts, NULL, m, TakenMem(c, m, prev, b, n))
  {
    var mid := Carve(c, ts[k], rounded, a, orig);
    var b, n := mid[0], ts[k].size;
    if b.size < n {
      assert mid == [b, Remainder(b, n)];
      AllocSplitImage(c, m, head, ts, k, b);
    } else {
      assert mid == [b];
      AllocWholeImage(c, m, head, ts, k, b);
    }
  }
}
