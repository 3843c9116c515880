/**
 How a tiling is kept inside the memory it describes: the nodes of the free list in the free
 tiles, the allocation headers in the live ones.

 Memory is a sequence of byte cells. A word that is stored at address a leaves its value in
 cell a and wipes the other cells it covers. Words are stored at multiples of the word size only,
 so two words are the same or do not overlap, and a store destroys every word it touches.
 */
module FreeListMemory {
  import opened Bits
  import opened FreeListSpec

  /** a is a multiple of the word size w. */
  predicate OnWord(w: nat, a: int)
    decreases a
  {
    w >= 1 && (a == 0 || (a >= w && OnWord(w, a - w)))
  }

  lemma {:induction false} OnWordIsMultiple(w: nat, a: nat)
    requires w >= 1
    ensures OnWord(w, a) <==> a % w == 0
    decreases a
  {
    if a >= w {
      OnWordIsMultiple(w, a - w);
      Division(a - w, w);
      ModUnique(a, w, (a - w) / w + 1, (a - w) % w);
    } else {
      ModUnique(a, w, 0, a);
    }
  }

  lemma {:induction false} Division(x: nat, d: nat)
    requires d > 0
    ensures x == d * (x / d) + x % d && 0 <= x % d < d
  {
  }

  function StoreWord(m: seq<int>, w: nat, a: nat, v: int): (r: seq<int>)
    requires w >= 1 && a + w <= |m|
    ensures |r| == |m| && r[a] == v
    ensures forall i | 0 <= i < |m| && !(a <= i < a + w) :: r[i] == m[i]
  {
    seq(|m|, i requires 0 <= i < |m| => if i == a then v else if a < i < a + w then 0 else m[i])
  }

  function At(m: seq<int>, a: int): int {
    if 0 <= a < |m| then m[a] else 0
  }

  /** The address of the first free tile, or what follows the tiles in the list. */
  function FirstFree(ts: seq<Tile>, tail: int): int {
    if ts == [] then tail
    else if ts[0].Free? then ts[0].start
    else FirstFree(ts[1..], tail)
  }

  /** The address of the last free tile, or what precedes the tiles in the list. */
  function LastFree(ts: seq<Tile>, before: int): int {
    if ts == [] then before
    else LastFree(ts[1..], if ts[0].Free? then ts[0].start else before)
  }

  /** A Free_List_Node {next, block_size}, or a header {orig_size, block_size, padding}. */
  ghost predicate Stored(c: Area, m: seq<int>, t: Tile, next: int) {
    match t
    case Free(start, size) => At(m, start) == next && At(m, start + c.word) == size
    case Live(start, size, ptr, orig, _) =>
      var header := ptr - c.HeaderSize();
      At(m, header) == orig && At(m, header + c.word) == size && At(m, header + 2 * c.word) == header - start
  }

  /** The memory holds the list of the free tiles, in order, and the header of every live one. */
  ghost predicate Chain(c: Area, m: seq<int>, ts: seq<Tile>, tail: int) {
    ts == [] || (Stored(c, m, ts[0], FirstFree(ts[1..], tail)) && Chain(c, m, ts[1..], tail))
  }

  /** The words of a tile's node or header lie inside the tile, at multiples of the word size. */
  predicate Shaped(c: Area, t: Tile) {
    && c.word >= 1
    && t.size >= c.NodeSize()
    && (t.Live? ==> t.start + c.HeaderSize() <= t.ptr <= t.End())
    && OnWord(c.word, t.start) && (t.Live? ==> OnWord(c.word, t.ptr - c.HeaderSize()))
  }

  ghost predicate AllShaped(c: Area, ts: seq<Tile>) {
    forall t | t in ts :: Shaped(c, t)
  }

  lemma {:induction false} TilesAreShaped(c: Area, ts: seq<Tile>)
    requires c.Valid() && TilesOk(c, ts)
    ensures AllShaped(c, ts)
  {
    forall t | t in ts
      ensures Shaped(c, t)
    {
      assert TileOk(c, t);
      TileOnWord(c, t);
    }
  }

  lemma {:induction false} AlignedOnWord(c: Area, a: nat)
    requires c.Valid() && (c.data + a) % c.maxAlign == 0
    ensures OnWord(c.word, a)
  {
    MultiplesApart(c.data + a, c.data, c.maxAlign);
    assert a == (c.data + a) - c.data;
    DividesTransitive(c.word, c.maxAlign, a);
    OnWordIsMultiple(c.word, a);
  }

  lemma {:induction false} TileOnWord(c: Area, t: Tile)
    requires c.Valid() && TileOk(c, t)
    ensures OnWord(c.word, t.start) && (t.Live? ==> OnWord(c.word, t.ptr - c.HeaderSize()))
  {
    AlignedOnWord(c, t.start);
    if t.Live? {
      PowersDivide(c.maxAlign, t.align);
      DividesTransitive(c.maxAlign, t.align, c.data + t.ptr);
      AlignedOnWord(c, t.ptr);
      assert OnWord(c.word, t.ptr - c.word) && OnWord(c.word, t.ptr - c.word - c.word);
    }
  }

  // ---------- the list, piece by piece ----------

  lemma {:induction false} FirstFreeAppend(a: seq<Tile>, b: seq<Tile>, tail: int)
    ensures FirstFree(a + b, tail) == FirstFree(a, FirstFree(b, tail))
  {
    if a == [] {
      assert a + b == b;
    } else {
      assert (a + b)[1..] == a[1..] + b;
      FirstFreeAppend(a[1..], b, tail);
    }
  }

  lemma {:induction false} LastFreeAppend(a: seq<Tile>, b: seq<Tile>, before: int)
    ensures LastFree(a + b, before) == LastFree(b, LastFree(a, before))
  {
    if a == [] {
      assert a + b == b;
    } else {
      assert (a + b)[1..] == a[1..] + b;
      LastFreeAppend(a[1..], b, if a[0].Free? then a[0].start else before);
    }
  }

  lemma {:induction false} ChainAppend(c: Area, m: seq<int>, a: seq<Tile>, b: seq<Tile>, tail: int)
    ensures Chain(c, m, a + b, tail) <==> Chain(c, m, a, FirstFree(b, tail)) && Chain(c, m, b, tail)
  {
    if a == [] {
      assert a + b == b;
    } else {
      assert (a + b)[1..] == a[1..] + b;
      FirstFreeAppend(a[1..], b, tail);
      ChainAppend(c, m, a[1..], b, tail);
    }
  }

  lemma {:induction false} Chain3(c: Area, m: seq<int>, a: seq<Tile>, b: seq<Tile>, d: seq<Tile>)
    ensures Chain(c, m, a + b + d, NULL) <==>
      && Chain(c, m, a, FirstFree(b, FirstFree(d, NULL)))
      && Chain(c, m, b, FirstFree(d, NULL))
      && Chain(c, m, d, NULL)
    ensures FirstFree(a + b + d, NULL) == FirstFree(a, FirstFree(b, FirstFree(d, NULL)))
  {
    ChainAppend(c, m, a + b, d, NULL);
    ChainAppend(c, m, a, b, FirstFree(d, NULL));
    FirstFreeAppend(a + b, d, NULL);
    FirstFreeAppend(a, b, FirstFree(d, NULL));
  }

  lemma {:induction false} ChainOne(c: Area, m: seq<int>, t: Tile, tail: int)
    ensures Chain(c, m, [t], tail) <==> Stored(c, m, t, tail)
    ensures FirstFree([t], tail) == (if t.Free? then t.start else tail)
  {
    assert [t][1..] == [];
  }

  /** The entry of tile k, whatever its kind. */
  lemma {:induction false} StoredAt(c: Area, m: seq<int>, ts: seq<Tile>, k: nat)
    requires Chain(c, m, ts, NULL) && k < |ts|
    ensures Stored(c, m, ts[k], FirstFree(ts[k + 1..], NULL))
  {
    Split(ts, k);
    Chain3(c, m, ts[..k], [ts[k]], ts[k + 1..]);
    ChainOne(c, m, ts[k], FirstFree(ts[k + 1..], NULL));
  }

  ghost predicate SameCells(m: seq<int>, m': seq<int>, lo: nat, hi: nat) {
    |m| == |m'| && forall i | lo <= i < hi && i < |m| :: m[i] == m'[i]
  }

  ghost predicate SameOutside(m: seq<int>, m': seq<int>, lo: nat, hi: nat) {
    |m| == |m'| && forall i | 0 <= i < |m| && !(lo <= i < hi) :: m[i] == m'[i]
  }

  lemma {:induction false} StoredFrame(c: Area, m: seq<int>, m': seq<int>, t: Tile, next: int)
    requires Shaped(c, t) && SameCells(m, m', t.start, t.End())
    ensures Stored(c, m, t, next) <==> Stored(c, m', t, next)
  {
  }

  /** A piece of the list depends only on the cells of its own tiles. */
  lemma {:induction false} ChainFrame(c: Area, m: seq<int>, m': seq<int>, ts: seq<Tile>, lo: nat, tail: int)
    requires Contiguous(ts, lo) && AllShaped(c, ts) && SameCells(m, m', lo, lo + Span(ts))
    ensures Chain(c, m, ts, tail) <==> Chain(c, m', ts, tail)
    decreases ts
  {
    if ts != [] {
      StoredFrame(c, m, m', ts[0], FirstFree(ts[1..], tail));
      ChainFrame(c, m, m', ts[1..], lo + ts[0].size, tail);
    }
  }

  lemma {:induction false} FirstFreeWithin(ts: seq<Tile>, lo: nat, tail: int)
    requires Contiguous(ts, lo)
    ensures FirstFree(ts, NULL) == NULL ==> FirstFree(ts, tail) == tail
    ensures FirstFree(ts, NULL) != NULL ==>
      FirstFree(ts, tail) == FirstFree(ts, NULL) && lo <= FirstFree(ts, NULL) < lo + Span(ts)
    decreases ts
  {
    if ts != [] && !ts[0].Free? {
      FirstFreeWithin(ts[1..], lo + ts[0].size, tail);
    }
  }

  lemma {:induction false} LastFreeWithin(c: Area, ts: seq<Tile>, lo: nat, before: int)
    requires Contiguous(ts, lo) && AllShaped(c, ts)
    ensures FirstFree(ts, NULL) == NULL <==> LastFree(ts, NULL) == NULL
    ensures LastFree(ts, NULL) == NULL ==> LastFree(ts, before) == before
    ensures LastFree(ts, NULL) != NULL ==> LastFree(ts, before) == LastFree(ts, NULL)
    ensures LastFree(ts, NULL) != NULL ==>
      lo <= LastFree(ts, NULL) && LastFree(ts, NULL) + c.NodeSize() <= lo + Span(ts) && OnWord(c.word, LastFree(ts, NULL))
    decreases ts
  {
    if ts != [] {
      var b := if ts[0].Free? then ts[0].start else before;
      assert Shaped(c, ts[0]);
      LastFreeWithin(c, ts[1..], lo + ts[0].size, b);
      LastFreeWithin(c, ts[1..], lo + ts[0].size, if ts[0].Free? then ts[0].start else NULL);
    }
  }

  // ---------- writing through "the next field of the predecessor, or head" ----------

  /** The value of the predecessor's next field; the head when there is no predecessor. */
  function Next(m: seq<int>, head: int, prev: int): int {
    if prev == NULL then head else At(m, prev)
  }

  function LinkMem(m: seq<int>, w: nat, prev: int, v: int): (r: seq<int>)
    requires w >= 1 && (prev == NULL || (0 <= prev && prev + w <= |m|))
    ensures |r| == |m|
  {
    if prev == NULL then m else StoreWord(m, w, prev, v)
  }

  function LinkHead(head: int, prev: int, v: int): int {
    if prev == NULL then v else head
  }

  /** Storing into the last free tile's next field changes where the piece leads, and nothing else. */
  lemma {:induction false} Relink(c: Area, m: seq<int>, pre: seq<Tile>, lo: nat, tail: int, v: int)
    requires Contiguous(pre, lo) && AllShaped(c, pre) && lo + Span(pre) <= |m| && c.word >= 1
    requires Chain(c, m, pre, tail)
    requires LastFree(pre, NULL) != NULL ==> 0 <= LastFree(pre, NULL) && LastFree(pre, NULL) + c.word <= |m|
    ensures Chain(c, LinkMem(m, c.word, LastFree(pre, NULL), v), pre, v)
    decreases pre
  {
    if pre != [] {
      var t, rest := pre[0], pre[1..];
      var lo' := lo + t.size;
      LastFreeWithin(c, rest, lo', if t.Free? then t.start else NULL);
      FirstFreeWithin(rest, lo', tail);
      FirstFreeWithin(rest, lo', v);
      LastFreeWithin(c, pre, lo, NULL);
      Relink(c, m, rest, lo', tail, v);
      var m' := LinkMem(m, c.word, LastFree(pre, NULL), v);
      if LastFree(rest, NULL) != NULL {
        StoredFrame(c, m, m', t, FirstFree(rest, tail));
      } else if t.Free? {
        assert Shaped(c, t);
        assert m' == StoreWord(m, c.word, t.start, v) && t.start + c.word <= lo';
        assert SameCells(m, m', lo', lo' + Span(rest));
        ChainFrame(c, m, m', rest, lo', v);
      }
    }
  }

  lemma {:induction false} RelinkHead(c: Area, pre: seq<Tile>, lo: nat, head: int, tail: int, v: int)
    requires Contiguous(pre, lo) && AllShaped(c, pre) && head == FirstFree(pre, tail)
    ensures LinkHead(head, LastFree(pre, NULL), v) == FirstFree(pre, v)
  {
    LastFreeWithin(c, pre, lo, NULL);
    FirstFreeWithin(pre, lo, tail);
    FirstFreeWithin(pre, lo, v);
  }

  /** The predecessor's next field holds the address of what follows. */
  lemma {:induction false} NextAfter(c: Area, m: seq<int>, pre: seq<Tile>, lo: nat, tail: int)
    requires Contiguous(pre, lo) && AllShaped(c, pre) && Chain(c, m, pre, tail)
    ensures Next(m, FirstFree(pre, tail), LastFree(pre, NULL)) == tail
    decreases pre
  {
    LastFreeWithin(c, pre, lo, NULL);
    FirstFreeWithin(pre, lo, tail);
    if pre != [] {
      var t, rest := pre[0], pre[1..];
      NextAfter(c, m, rest, lo + t.size, tail);
      LastFreeWithin(c, rest, lo + t.size, if t.Free? then t.start else NULL);
      FirstFreeWithin(rest, lo + t.size, tail);
    }
  }

  // ---------- walking the list ----------

  /** The walk stands on the first free tile at or after position i; f is that position. */
  lemma {:induction false} Advance(c: Area, m: seq<int>, ts: seq<Tile>, i: nat) returns (f: nat)
    requires i <= |ts| && Chain(c, m, ts, NULL) && FirstFree(ts[i..], NULL) != NULL
    ensures i <= f < |ts| && ts[f].Free? && ts[f].start == FirstFree(ts[i..], NULL)
    ensures forall j | i <= j < f :: !ts[j].Free?
    ensures At(m, ts[f].start) == FirstFree(ts[f + 1..], NULL) && At(m, ts[f].start + c.word) == ts[f].size
    ensures LastFree(ts[..f], NULL) == LastFree(ts[..i], NULL)
    ensures LastFree(ts[..f + 1], NULL) == ts[f].start
    decreases |ts| - i
  {
    assert ts[..i + 1] == ts[..i] + [ts[i]];
    LastFreeAppend(ts[..i], [ts[i]], NULL);
    assert [ts[i]][1..] == [];
    assert ts[i..][1..] == ts[i + 1..];
    if ts[i].Free? {
      f := i;
      StoredAt(c, m, ts, i);
    } else {
      f := Advance(c, m, ts, i + 1);
    }
  }

  lemma {:induction false} NoMoreFree(ts: seq<Tile>, i: nat)
    requires i <= |ts| && FirstFree(ts[i..], NULL) == NULL
    ensures forall j | i <= j < |ts| :: !ts[j].Free?
    ensures LastFree(ts, NULL) == LastFree(ts[..i], NULL)
    decreases |ts| - i
  {
    if i < |ts| {
      assert ts[i..][1..] == ts[i + 1..];
      assert ts[..i + 1] == ts[..i] + [ts[i]];
      assert [ts[i]][1..] == [];
      LastFreeAppend(ts[..i], [ts[i]], NULL);
      NoMoreFree(ts, i + 1);
    } else {
      assert ts[..i] == ts;
    }
  }

  // ---------- what other blocks see ----------

  /** No cell of a live block other than the one at position k differs. */
  ghost predicate KeepsLive(ts: seq<Tile>, k: int, m: seq<int>, m': seq<int>) {
    && |m| == |m'|
    && forall j | 0 <= j < |ts| && ts[j].Live? && j != k :: SameCells(m, m', ts[j].start, ts[j].End())
  }

  lemma {:induction false} KeepsLiveTrans(ts: seq<Tile>, k: int, m1: seq<int>, m2: seq<int>, m3: seq<int>)
    requires KeepsLive(ts, k, m1, m2) && KeepsLive(ts, k, m2, m3)
    ensures KeepsLive(ts, k, m1, m3)
  {
    forall j | 0 <= j < |ts| && ts[j].Live? && j != k
      ensures SameCells(m1, m3, ts[j].start, ts[j].End())
    {
      assert SameCells(m1, m2, ts[j].start, ts[j].End()) && SameCells(m2, m3, ts[j].start, ts[j].End());
    }
  }

  /** Changes inside a free tile, or inside tile k, are invisible to the other live blocks. */
  lemma {:induction false} ChangesInside(ts: seq<Tile>, k: int, q: nat, m: seq<int>, m': seq<int>)
    requires Contiguous(ts, 0) && q < |ts| && (ts[q].Free? || q == k)
    requires SameOutside(m, m', ts[q].start, ts[q].End())
    ensures KeepsLive(ts, k, m, m')
  {
    TilesDisjoint(ts, 0);
  }

  /** The word at the last free tile before position k lies in a free tile. */
  lemma {:induction false} LastFreeIsTile(ts: seq<Tile>, n: nat) returns (q: nat)
    requires n <= |ts| && LastFree(ts[..n], NULL) != NULL
    ensures q < n && ts[q].Free? && ts[q].start == LastFree(ts[..n], NULL)
    ensures forall j | q < j < n :: !ts[j].Free?
    decreases n
  {
    var prefix := ts[..n];
    assert n == 0 ==> prefix == [];
    assert ts[..n] == ts[..n - 1] + [ts[n - 1]];
    LastFreeAppend(ts[..n - 1], [ts[n - 1]], NULL);
    assert [ts[n - 1]][1..] == [];
    if ts[n - 1].Free? {
      q := n - 1;
    } else {
      q := LastFreeIsTile(ts, n - 1);
    }
  }

  /** Writing the predecessor's next field, or the head, is invisible to live blocks. */
  lemma {:induction false} LinkKeepsLive(c: Area, ts: seq<Tile>, k: int, n: nat, m: seq<int>, v: int)
    requires Contiguous(ts, 0) && AllShaped(c, ts) && n <= |ts| && Span(ts) <= |m| && c.word >= 1
    ensures LastFree(ts[..n], NULL) != NULL ==>
      0 <= LastFree(ts[..n], NULL) && LastFree(ts[..n], NULL) + c.word <= |m|
    ensures KeepsLive(ts, k, m, LinkMem(m, c.word, LastFree(ts[..n], NULL), v))
  {
    if LastFree(ts[..n], NULL) != NULL {
      var q := LastFreeIsTile(ts, n);
      assert ts[q] in ts;
      TilePosition(ts, 0, q);
      ChangesInside(ts, k, q, m, StoreWord(m, c.word, ts[q].start, v));
    }
  }
}
