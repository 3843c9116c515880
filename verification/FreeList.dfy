/**
 The free-list allocator of lib/allocators.c, operating in place on the memory it hands out.

 Every method is proved against the step function of FreeListRuns: the class keeps, in `tiles`,
 the tiling that its memory represents.
 */
module FreeListAllocator {
  import opened Bits
  import opened FreeListSpec
  import opened FreeListMemory
  import opened FreeListSteps
  import opened FreeListRuns

  class FreeList {
    const c: Area
    const mem: array<int>
    var used: int
    var head: int
    var policy: Policy
    ghost var tiles: seq<Tile>

    ghost predicate Valid()
      reads this, mem
    {
      c.Valid() && mem.Length == c.size && Good(c, State()) && Image(c, mem[..], head, tiles)
    }

    ghost function State(): Heap
      reads this
    {
      Heap(tiles, used)
    }

    /** free_list_init() on `length` bytes at address `backing`. */
    constructor (word: nat, maxAlign: nat, limit: nat, backing: nat, length: nat)
      requires word >= 1 && IsPowerOfTwo(maxAlign) && maxAlign % word == 0
      requires backing + length <= limit
      requires RoundUp(backing, maxAlign) - backing + 2 * word <= length
      ensures Valid() && fresh(mem) && State() == Initial(c) && policy == Policy.FindFirst
      ensures c.word == word && c.maxAlign == maxAlign && c.limit == limit
      ensures c.data == RoundUp(backing, maxAlign) && c.data + c.size == backing + length
    {
      var start := AlignForward(backing, maxAlign, limit);
      MaskIsMod(backing, maxAlign);
      RoundUpIsLeast(backing, maxAlign);
      if backing % maxAlign != 0 {
        ModUnique(RoundUp(backing, maxAlign), limit, 0, RoundUp(backing, maxAlign));
      }
      var adjustment := start - backing;
      c := Area(word, maxAlign, limit, start, length - adjustment);
      mem := new int[length - adjustment];
      policy := Policy.FindFirst;
      new;
      FreeAll();
    }

    /** A store of one word, which must be aligned. */
    method Store(a: int, v: int)
      requires OnWord(c.word, a) && 0 <= a && a + c.word <= mem.Length
      modifies mem
      ensures mem[..] == StoreWord(old(mem[..]), c.word, a, v)
    {
      forall i | a < i < a + c.word {
        mem[i] := 0;
      }
      mem[a] := v;
    }

    /** free_list_free_all(): from any state, the whole area becomes one free node. */
    method FreeAll()
      requires c.Valid() && mem.Length == c.size
      modifies `used, `head, `tiles, mem
      ensures Valid() && State() == Initial(c)
    {
      used := 0;
      Store(c.word, c.size);
      Store(0, NULL);
      head := 0;
      tiles := [Tile.Free(0, c.size)];
      InitialIsGood(c);
      ChainOne(c, mem[..], tiles[0], NULL);
    }

    /** What both searches compute for a node: its padding, and how many bytes it must have. */
    method Measure(node: int, size: nat, alignment: nat) returns (padding: nat, required: nat)
      requires 0 <= node && IsPowerOfTwo(alignment) && c.HeaderSize() + alignment <= c.limit
      ensures padding == Padding(c, node, alignment) && required == Required(c, node, size, alignment)
    {
      padding := CalcPadding(c.data + node, alignment, c.HeaderSize());
      required := (size + padding) % c.limit;
    }

    /** free_list_find_first(). */
    method FindFirst(size: nat, alignment: nat) returns (node: int, padding: nat, prev: int)
      requires Valid() && IsPowerOfTwo(alignment) && c.HeaderSize() + alignment <= c.limit
      ensures FoundAt(c, tiles, size, alignment, FirstFit(c, tiles, size, alignment, 0), node, padding, prev)
    {
      node, prev, padding := head, NULL, 0;
      ghost var i := 0;
      assert tiles[0..] == tiles;
      while node != NULL
        invariant 0 <= i <= |tiles|
        invariant node == FirstFree(tiles[i..], NULL) && prev == LastFree(tiles[..i], NULL)
        invariant FirstFit(c, tiles, size, alignment, 0) == FirstFit(c, tiles, size, alignment, i)
        decreases |tiles| - i
      {
        ghost var f := FirstVisit(c, mem[..], head, tiles, size, alignment, i);
        var required;
        padding, required := Measure(node, size, alignment);
        if mem[node + c.word] >= required {
          return;
        }
        prev, node, i := node, mem[node], f + 1;
      }
      NoMoreFree(tiles, i);
      SkipToFit(c, tiles, size, alignment, i, |tiles|);
    }

    /** free_list_find_best(). */
    method FindBest(size: nat, alignment: nat) returns (bestNode: int, bestPadding: nat, bestPrev: int)
      requires Valid() && IsPowerOfTwo(alignment) && c.HeaderSize() + alignment <= c.limit
      requires c.size < c.limit - 1 || size + c.HeaderSize() + alignment <= c.limit
      ensures FoundAt(c, tiles, size, alignment, BestFit(c, tiles, size, alignment, |tiles|), bestNode, bestPadding, bestPrev)
    {
      var smallestDiff := c.limit - 1;
      var node, prev := head, NULL;
      bestNode, bestPrev, bestPadding := NULL, NULL, 0;
      ghost var i, k := 0, NULL;
      assert tiles[0..] == tiles;
      while node != NULL
        invariant 0 <= i <= |tiles|
        invariant node == FirstFree(tiles[i..], NULL) && prev == LastFree(tiles[..i], NULL)
        invariant Found(k, bestNode, bestPadding, bestPrev, smallestDiff) == BestFound(c, tiles, size, alignment, i)
        decreases |tiles| - i
      {
        ghost var f := BestVisit(c, mem[..], head, tiles, size, alignment, i);
        var padding, required := Measure(node, size, alignment);
        ghost var best := Found(k, bestNode, bestPadding, bestPrev, smallestDiff);
        assert BestFound(c, tiles, size, alignment, f + 1)
            == Consider(best, mem[node + c.word], required, f, node, padding, prev);
        if mem[node + c.word] >= required && mem[node + c.word] - required < smallestDiff {
          bestNode := node;
          smallestDiff := mem[node + c.word] - required;
          bestPadding := padding;
          bestPrev := prev;
          k := f;
        }
        assert Found(k, bestNode, bestPadding, bestPrev, smallestDiff)
            == Consider(best, mem[node + c.word], required, f, node, padding, prev);
        i, prev, node := f + 1, node, mem[node];
      }
      BestDone(c, tiles, size, alignment, i);
    }

    /** free_list_node_insert(). */
    method NodeInsert(prev: int, newNode: int)
      requires OnWord(c.word, newNode) && 0 <= newNode && newNode + c.word <= mem.Length
      requires prev == NULL || (OnWord(c.word, prev)
        && 0 <= prev && prev + c.word <= mem.Length && (prev + c.word <= newNode || newNode + c.word <= prev))
      modifies `head, mem
      ensures mem[..] ==
        LinkMem(StoreWord(old(mem[..]), c.word, newNode, Next(old(mem[..]), old(head), prev)), c.word, prev, newNode)
      ensures head == LinkHead(old(head), prev, newNode)
    {
      if prev == NULL {
        Store(newNode, head);
        head := newNode;
      } else {
        if mem[prev] == NULL {
          Store(prev, newNode);
          Store(newNode, NULL);
          StoresCommute(old(mem[..]), c.word, prev, newNode, newNode, NULL);
        } else {
          Store(newNode, mem[prev]);
          Store(prev, newNode);
        }
      }
    }

    /** free_list_node_remove(). */
    method NodeRemove(prev: int, delNode: int)
      requires c.word >= 1 && 0 <= delNode < mem.Length
      requires prev == NULL || (OnWord(c.word, prev) && 0 <= prev && prev + c.word <= mem.Length)
      modifies `head, mem
      ensures mem[..] == LinkMem(old(mem[..]), c.word, prev, old(mem[delNode]))
      ensures head == LinkHead(old(head), prev, old(mem[delNode]))
    {
      if prev == NULL {
        head := mem[delNode];
      } else {
        Store(prev, mem[delNode]);
      }
    }

    /** Cut block b from `node`: what is left becomes a node of its own, unless it is too small. */
    method CutNode(node: int, padding: nat, prev: int, rounded: nat, ghost orig: nat, ghost b: Tile, ghost n: nat)
      returns (block: int)
      requires Selected(c, mem[..], node, padding, prev, rounded, orig, b, n)
      modifies `head, mem
      ensures block == b.size && head == old(head) && b.End() <= mem.Length
      ensures mem[..] == CutMem(c, old(mem[..]), prev, b, n)
    {
      ghost var cut := CutMem(c, mem[..], prev, b, n);
      block := (rounded + padding) % c.limit;
      BelowLimit(rounded + padding, c.limit);
      var remaining := mem[node + c.word] - block;
      if remaining >= c.NodeSize() + c.NodeSize() {
        assert node + block == b.End() && remaining == n - b.size;
        assert cut == StoreRemainder(mem[..], c.word, node, node + block, remaining);
        MakeRemainder(node, node + block, remaining);
        assert mem[..] == cut;
      } else {
        block := mem[node + c.word];
      }
    }

    /** The second half of free_list_alloc(): take block b from `node`, whole or in part. */
    method TakeNode(node: int, padding: nat, prev: int, rounded: nat, orig: nat, ghost b: Tile, ghost n: nat)
      returns (ptr: int)
      requires Selected(c, mem[..], node, padding, prev, rounded, orig, b, n)
      modifies `used, `head, mem
      ensures mem[..] == TakenMem(c, old(mem[..]), prev, b, n)
      ensures head == TakenHead(c, old(mem[..]), old(head), prev, b, n)
      ensures ptr == b.ptr && used == old(used) + b.size
    {
      var alignmentPadding := padding - c.HeaderSize();
      var block := CutNode(node, padding, prev, rounded, orig, b, n);
      Detach(prev, node, node + alignmentPadding, orig, block, alignmentPadding, b);
      used := used + block;
      ptr := node + alignmentPadding + c.HeaderSize();
    }

    /** Unlink the node and write the allocation header over it. */
    method Detach(prev: int, node: int, header: int, orig: int, block: int, padding: int, ghost b: Tile)
      requires b.Live? && Shaped(c, b) && b.End() <= mem.Length && node == b.start
      requires header == b.ptr - c.HeaderSize() && orig == b.orig && block == b.size && padding == header - b.start
      requires prev == NULL || (OnWord(c.word, prev) && 0 <= prev && prev + c.word <= mem.Length)
      modifies `head, mem
      ensures mem[..] == WholeMem(c, old(mem[..]), prev, b)
      ensures head == LinkHead(old(head), prev, old(mem[..])[node])
    {
      NodeRemove(prev, node);
      WriteHeader(header, orig, block, padding, b);
    }

    method MakeRemainder(node: int, newNode: int, remaining: int)
      requires OnWord(c.word, node) && OnWord(c.word, newNode)
      requires 0 <= node && node + c.word <= newNode && newNode + 2 * c.word <= mem.Length
      modifies `head, mem
      ensures mem[..] == StoreRemainder(old(mem[..]), c.word, node, newNode, remaining) && head == old(head)
      ensures mem[node] == newNode
    {
      Store(newNode + c.word, remaining);
      NodeInsert(node, newNode);
    }

    method WriteHeader(header: int, orig: int, block: int, padding: int, ghost b: Tile)
      requires b.Live? && Shaped(c, b) && b.End() <= mem.Length
      requires header == b.ptr - c.HeaderSize() && orig == b.orig && block == b.size && padding == header - b.start
      modifies mem
      ensures mem[..] == StoreHeader(c, old(mem[..]), b)
    {
      Store(header, orig);
      Store(header + c.word, block);
      Store(header + 2 * c.word, padding);
    }

    /** Round the request and search under the policy in force. */
    method Search(size: nat, alignment: nat)
      returns (node: int, padding: nat, prev: int, rounded: nat)
      requires Valid() && Representable(c, size, alignment)
      ensures rounded == Rounded(c, size, alignment)
      ensures var a := Alignment(c, alignment);
        FoundAt(c, tiles, rounded, a, Choose(c, policy, tiles, rounded, a), node, padding, prev)
    {
      rounded := if size < c.NodeSize() then c.NodeSize() else size;
      var a := if alignment < c.maxAlign then c.maxAlign else alignment;
      rounded := AlignForward(rounded, a, c.limit);
      RepresentableRounds(c, size, alignment);
      if policy.FindBest? {
        node, padding, prev := FindBest(rounded, a);
      } else {
        node, padding, prev := FindFirst(rounded, a);
      }
    }

    /** The first half of free_list_alloc(): what was found is what the step function chooses. */
    method Select(size: nat, alignment: nat)
      returns (node: int, padding: nat, prev: int, rounded: nat, ghost b: Tile, ghost n: nat)
      requires Valid() && Representable(c, size, alignment)
      ensures node == NULL <==> !SomeGapHolds(c, LiveSet(tiles), size, alignment)
      ensures node == NULL ==> Step(c, State(), DoAlloc(size, alignment, policy)) == State()
      ensures node != NULL ==> Selected(c, mem[..], node, padding, prev, rounded, size, b, n)
      ensures node != NULL ==> Gives(c, mem[..], head, prev, b, n, State(), size, alignment, policy)
    {
      node, padding, prev, rounded := Search(size, alignment);
      ghost var k := Choose(c, policy, tiles, rounded, Alignment(c, alignment));
      b := AllocOutcome(c, mem[..], head, State(), size, alignment, policy);
      n := if node == NULL then 0 else tiles[k].size;
    }

    /** Take the selected block; what follows of it was established when it was selected. */
    method TakeSelected(
        node: int, padding: nat, prev: int, rounded: nat, size: nat, ghost alignment: nat, ghost b: Tile, ghost n: nat)
      returns (ptr: int)
      requires c.Valid() && mem.Length == c.size && Representable(c, size, alignment)
      requires Selected(c, mem[..], node, padding, prev, rounded, size, b, n)
      requires Gives(c, mem[..], head, prev, b, n, State(), size, alignment, policy)
      modifies `used, `head, `tiles, mem
      ensures Valid() && State() == Step(c, old(State()), DoAlloc(size, alignment, policy))
      ensures ptr != NULL && HandsOut(c, LiveSet(old(tiles)), LiveSet(tiles), ptr, size, alignment)
      ensures KeepsLive(old(tiles), NULL, old(mem[..]), mem[..])
    {
      ghost var h := Step(c, State(), DoAlloc(size, alignment, policy));
      ptr := TakeNode(node, padding, prev, rounded, size, b, n);
      tiles := h.tiles;
      assert State() == h;
    }

    /** free_list_alloc(). */
    method Alloc(size: nat, alignment: nat) returns (ptr: int)
      requires Valid() && Representable(c, size, alignment)
      modifies `used, `head, `tiles, mem
      ensures Valid()
      ensures State() == Step(c, old(State()), DoAlloc(size, alignment, policy))
      ensures ptr == NULL <==> !SomeGapHolds(c, LiveSet(old(tiles)), size, alignment)
      ensures ptr != NULL ==> HandsOut(c, LiveSet(old(tiles)), LiveSet(tiles), ptr, size, alignment)
      ensures ptr != NULL ==> TakesPolicyGap(c, LiveSet(old(tiles)), LiveSet(tiles), policy, size, alignment, ptr)
      ensures KeepsLive(old(tiles), NULL, old(mem[..]), mem[..])
    {
      var node, padding, prev, rounded;
      ghost var b, n;
      node, padding, prev, rounded, b, n := Select(size, alignment);
      if node == NULL {
        KeepsLiveRefl(tiles, NULL, mem[..]);
        ptr := NULL;
      } else {
        ptr := TakeSelected(node, padding, prev, rounded, size, alignment, b, n);
        AllocTakesPolicyGap(c, old(State()), policy, size, alignment, ptr);
      }
    }

    /** The two stores that join the node `right` to the node `left`. */
    method JoinNodes(left: int, right: int)
      requires OnWord(c.word, left) && 0 <= left && left + 2 * c.word <= right && right + 2 * c.word <= mem.Length
      modifies `head, mem
      ensures mem[..] == JoinMem(old(mem[..]), c.word, left, right) && head == old(head)
    {
      Store(left + c.word, mem[left + c.word] + mem[right + c.word]);
      NodeRemove(left, right);
    }

    /** Join the free node `left` with the free node `right` that it touches. */
    method Absorb(left: int, right: int, ghost ts: seq<Tile>, ghost k: nat)
      requires Image(c, mem[..], head, ts) && Shape(c, ts)
      requires k + 1 < |ts| && ts[k].Free? && ts[k + 1].Free? && left == ts[k].start && right == ts[k + 1].start
      modifies `head, mem
      ensures Image(c, mem[..], head, MergeAt(ts, k))
      ensures KeepsLive(ts, NULL, old(mem[..]), mem[..])
    {
      AbsorbStores(c, mem[..], head, ts, k);
      assert Shaped(c, ts[k]);
      JoinNodes(left, right);
    }

    /** free_list_coalescence(), its first half: with the node that follows. */
    method MergeRight(freeNode: int, ghost ts: seq<Tile>, ghost k: nat)
      requires c.Valid() && Tiling(c, ts) && Image(c, mem[..], head, ts)
      requires k < |ts| && ts[k].Free? && freeNode == ts[k].start
      modifies `head, mem
      ensures Image(c, mem[..], head, MergeAt(ts, k))
      ensures KeepsLive(ts, NULL, old(mem[..]), mem[..])
    {
      NodeFacts(c, mem[..], head, ts, k);
      TouchesNext(c, ts, k);
      if mem[freeNode] != NULL && freeNode + mem[freeNode + c.word] == mem[freeNode] {
        Absorb(freeNode, mem[freeNode], ts, k);
      } else {
        KeepsLiveRefl(ts, NULL, mem[..]);
      }
    }

    /** free_list_coalescence(), its second half: with the node that precedes. */
    method MergeLeft(prev: int, freeNode: int, ghost ts: seq<Tile>, ghost k: nat)
      requires Shape(c, ts) && Image(c, mem[..], head, ts) && MayTouch(c, mem[..], prev, ts, k) && freeNode == ts[k].start
      modifies `head, mem
      ensures Image(c, mem[..], head, if k > 0 then MergeAt(ts, k - 1) else ts)
      ensures KeepsLive(ts, NULL, old(mem[..]), mem[..])
    {
      if prev != NULL && prev + mem[prev + c.word] == freeNode {
        Absorb(prev, freeNode, ts, k - 1);
      } else {
        KeepsLiveRefl(ts, NULL, mem[..]);
      }
    }

    /** free_list_coalescence(). */
    method Coalescence(prev: int, freeNode: int, ghost ts: seq<Tile>, ghost k: nat)
      requires c.Valid() && Tiling(c, ts) && Image(c, mem[..], head, ts)
      requires k < |ts| && ts[k].Free? && freeNode == ts[k].start && prev == LastFree(ts[..k], NULL)
      modifies `head, mem
      ensures var right := MergeAt(ts, k);
        Image(c, mem[..], head, if k > 0 then MergeAt(right, k - 1) else right)
      ensures KeepsLive(ts, NULL, old(mem[..]), mem[..])
    {
      MergeRight(freeNode, ts, k);
      ghost var m1 := mem[..];
      AfterRightMerge(c, m1, head, ts, k);
      MergeLeft(prev, freeNode, MergeAt(ts, k), k);
      KeepsLiveAcrossMerge(ts, k, m1, mem[..]);
      KeepsLiveTrans(ts, NULL, old(mem[..]), m1, mem[..]);
    }

    /** The walk of free_list_free(): the last node before freeNode. */
    method Place(freeNode: int, ghost us: seq<Tile>, ghost j: nat) returns (prev: int)
      requires c.word >= 1 && Chain(c, mem[..], us, NULL) && head == FirstFree(us, NULL) && j <= |us|
      requires forall i | 0 <= i < |us| && us[i].Free? :: us[i].start + c.NodeSize() <= mem.Length
      requires forall i | 0 <= i < j :: us[i].start < freeNode
      requires forall i | j <= i < |us| :: freeNode < us[i].start
      ensures prev == LastFree(us[..j], NULL)
    {
      var node := head;
      prev := NULL;
      ghost var i := 0;
      assert us[0..] == us;
      while node != NULL && !(freeNode < node)
        invariant 0 <= i <= j
        invariant node == FirstFree(us[i..], NULL) && prev == LastFree(us[..i], NULL)
        decreases |us| - i
      {
        ghost var f := Advance(c, mem[..], us, i);
        prev := node;
        node := mem[node];
        i := f + 1;
      }
      PlaceFound(c, mem[..], us, i, j, freeNode);
    }

    /** Turn the header of a live block into the node of a free one. */
    method WriteNode(ptr: int, ghost t: Tile) returns (freeNode: int)
      requires t.Live? && t.ptr == ptr && Shaped(c, t) && t.End() <= mem.Length && Stored(c, mem[..], t, NULL)
      modifies mem
      ensures freeNode == t.start
      ensures SameOutside(old(mem[..]), mem[..], t.start, t.End()) && mem[t.start + c.word] == t.size
    {
      var header := ptr - c.HeaderSize();
      freeNode := header - mem[header + 2 * c.word];
      Store(freeNode + c.word, mem[header + c.word]);
      Store(freeNode, NULL);
    }

    /** Write the node of the freed block and link it in, without merging. */
    method Release(ptr: int, ghost k: nat) returns (prev: int, freeNode: int)
      requires c.Valid() && Tiling(c, tiles) && Image(c, mem[..], head, tiles)
      requires k < |tiles| && tiles[k].Live? && tiles[k].ptr == ptr
      modifies `head, mem
      ensures Image(c, mem[..], head, Released(tiles, k))
      ensures freeNode == tiles[k].start && prev == LastFree(tiles[..k], NULL)
      ensures KeepsLive(tiles, k, old(mem[..]), mem[..])
    {
      ghost var m := mem[..];
      NodeFacts(c, m, head, tiles, k);
      StoredAt(c, m, tiles, k);
      freeNode := WriteNode(ptr, tiles[k]);
      ghost var m2 := mem[..];
      assert At(m2, tiles[k].start + c.word) == tiles[k].size;
      ReleaseStores(c, m, head, tiles, k, m2);
      WalkFacts(c, m, head, tiles, k, m2);
      prev := Place(freeNode, tiles[..k] + tiles[k + 1..], k);
      NodeInsert(prev, freeNode);
    }

    /** free_list_free() of live block k. */
    method FreeBlock(ptr: int, ghost k: nat)
      requires c.Valid() && Tiling(c, tiles) && Image(c, mem[..], head, tiles)
      requires k < |tiles| && tiles[k].Live? && tiles[k].ptr == ptr
      modifies `used, `head, mem
      ensures Image(c, mem[..], head, FreeAt(tiles, k)) && used == old(used) - tiles[k].size
      ensures KeepsLive(tiles, k, old(mem[..]), mem[..])
    {
      ghost var m := mem[..];
      var prev, freeNode := Release(ptr, k);
      ghost var m1 := mem[..];
      ReleasedFacts(c, m1, head, tiles, k);
      used := used - mem[freeNode + c.word];
      Coalescence(prev, freeNode, Released(tiles, k), k);
      KeepsLiveAcrossRelease(tiles, k, m1, mem[..]);
      KeepsLiveTrans(tiles, k, m, m1, mem[..]);
    }

    /** free_list_free(). */
    method Free(ptr: int)
      requires Valid() && (ptr == NULL || FindLive(tiles, ptr, 0) != NULL)
      modifies `used, `head, `tiles, mem
      ensures Valid()
      ensures State() == Step(c, old(State()), DoFree(ptr))
      ensures KeepsLive(old(tiles), FindLive(old(tiles), ptr, 0), old(mem[..]), mem[..])
    {
      ghost var k, h := FindLive(tiles, ptr, 0), Step(c, State(), DoFree(ptr));
      if ptr == NULL {
        KeepsLiveRefl(tiles, k, mem[..]);
        return;
      }
      StepRefines(c, State(), DoFree(ptr));
      FreeBlock(ptr, k);
      tiles := h.tiles;
    }
  }

  // ---------- lemmas the methods use ----------

  /** The result of a search for tile k: its node, padding and predecessor in the list, or NULL. */
  ghost predicate FoundAt(c: Area, ts: seq<Tile>, size: nat, a: nat, k: int, node: int, padding: nat, prev: int)
    requires a > 0 && c.limit > 0
  {
    if k == NULL then node == NULL
    else
      && 0 <= k < |ts| && Passes(c, ts[k], size, a)
      && node == ts[k].start && padding == Padding(c, node, a) && prev == LastFree(ts[..k], NULL)
  }

  lemma {:induction false} KeepsLiveRefl(ts: seq<Tile>, k: int, m: seq<int>)
    ensures KeepsLive(ts, k, m, m)
  {
  }

  lemma {:induction false} BelowLimit(x: nat, limit: nat)
    requires x < limit
    ensures x % limit == x
  {
    ModUnique(x, limit, 0, x);
  }

  lemma {:induction false} StoresCommute(m: seq<int>, w: nat, a: nat, x: int, b: nat, y: int)
    requires w >= 1 && a + w <= |m| && b + w <= |m| && (a + w <= b || b + w <= a)
    ensures StoreWord(StoreWord(m, w, a, x), w, b, y) == StoreWord(StoreWord(m, w, b, y), w, a, x)
  {
  }

  /** Standing on a node: its tile, and the words that can be read there. */
  lemma {:induction false} Visit(c: Area, m: seq<int>, head: int, ts: seq<Tile>, i: nat) returns (f: nat)
    requires c.Valid() && Tiling(c, ts) && Image(c, m, head, ts)
    requires i <= |ts| && FirstFree(ts[i..], NULL) != NULL
    ensures i <= f < |ts| && ts[f].Free? && ts[f].start == FirstFree(ts[i..], NULL)
    ensures forall j | i <= j < f :: !ts[j].Free?
    ensures ts[f].start + c.NodeSize() <= |m| && ts[f].size <= c.size
    ensures m[ts[f].start] == FirstFree(ts[f + 1..], NULL) && m[ts[f].start + c.word] == ts[f].size
    ensures LastFree(ts[..f], NULL) == LastFree(ts[..i], NULL)
    ensures LastFree(ts[..f + 1], NULL) == ts[f].start
  {
    f := Advance(c, m, ts, i);
    TilingShape(c, ts);
    TilePosition(ts, 0, f);
    assert Shaped(c, ts[f]);
  }

  lemma {:induction false} FirstVisit(
      c: Area, m: seq<int>, head: int, ts: seq<Tile>, size: nat, a: nat, i: nat) returns (f: nat)
    requires c.Valid() && Tiling(c, ts) && Image(c, m, head, ts)
    requires i <= |ts| && FirstFree(ts[i..], NULL) != NULL
    requires a > 0
    ensures i <= f < |ts| && ts[f].start == FirstFree(ts[i..], NULL) && ts[f].start + c.NodeSize() <= |m|
    ensures m[ts[f].start] == FirstFree(ts[f + 1..], NULL) && LastFree(ts[..f + 1], NULL) == ts[f].start
    ensures LastFree(ts[..f], NULL) == LastFree(ts[..i], NULL)
    ensures if m[ts[f].start + c.word] >= Required(c, ts[f].start, size, a)
      then Passes(c, ts[f], size, a) && FirstFit(c, ts, size, a, i) == f
      else FirstFit(c, ts, size, a, i) == FirstFit(c, ts, size, a, f + 1)
  {
    f := Visit(c, m, head, ts, i);
    SkipToFit(c, ts, size, a, i, f);
  }

  lemma {:induction false} SkipToFit(c: Area, ts: seq<Tile>, size: nat, a: nat, i: nat, f: nat)
    requires a > 0 && c.limit > 0 && i <= f <= |ts| && forall j | i <= j < f :: !ts[j].Free?
    ensures FirstFit(c, ts, size, a, i) == FirstFit(c, ts, size, a, f)
    decreases f - i
  {
    if i < f {
      SkipToFit(c, ts, size, a, i + 1, f);
    }
  }

  /** What free_list_find_best() remembers while it walks. */
  datatype Found = Found(k: int, node: int, padding: nat, prev: int, smallest: int)

  /** What it should remember of the first n tiles; ~(size_t)0 stands for "none yet". */
  function BestFound(c: Area, ts: seq<Tile>, size: nat, a: nat, n: nat): Found
    requires a > 0 && c.limit > 0 && n <= |ts|
  {
    var k := BestFit(c, ts, size, a, n);
    if k == NULL then Found(NULL, NULL, 0, NULL, c.limit - 1)
    else Found(k, ts[k].start, Padding(c, ts[k].start, a), LastFree(ts[..k], NULL), Leftover(c, ts[k], size, a))
  }

  /** A block is kept when it leaves less than the best so far. */
  function Consider(best: Found, block: int, required: int, k: int, node: int, padding: nat, prev: int): Found {
    if block >= required && block - required < best.smallest then Found(k, node, padding, prev, block - required) else best
  }

  lemma {:induction false} BestStep(c: Area, ts: seq<Tile>, size: nat, a: nat, i: nat, f: nat)
    requires a > 0 && c.limit > 0 && i <= f < |ts| && ts[f].Free? && Leftover(c, ts[f], size, a) < c.limit - 1
    requires forall j | i <= j < f :: !ts[j].Free?
    ensures var pad, required := Padding(c, ts[f].start, a), Required(c, ts[f].start, size, a);
      BestFound(c, ts, size, a, f + 1) ==
        Consider(BestFound(c, ts, size, a, i), ts[f].size, required, f, ts[f].start, pad, LastFree(ts[..f], NULL))
  {
    SkipToBest(c, ts, size, a, i, f);
  }

  /** No leftover is ~(size_t)0, which stands for "none yet". */
  lemma {:induction false} LeftoverIsSmall(c: Area, t: Tile, size: nat, a: nat)
    requires c.Valid() && IsPowerOfTwo(a) && t.size <= c.size
    requires c.size < c.limit - 1 || size + c.HeaderSize() + a <= c.limit
    ensures Leftover(c, t, size, a) < c.limit - 1
  {
    if c.size >= c.limit - 1 {
      SumInRange(c, t.start, size, a);
    }
  }

  /** One turn of the loop of free_list_find_best(). */
  lemma {:induction false} BestVisit(
      c: Area, m: seq<int>, head: int, ts: seq<Tile>, size: nat, a: nat, i: nat) returns (f: nat)
    requires c.Valid() && Tiling(c, ts) && Image(c, m, head, ts)
    requires i <= |ts| && FirstFree(ts[i..], NULL) != NULL
    requires IsPowerOfTwo(a) && (c.size < c.limit - 1 || size + c.HeaderSize() + a <= c.limit)
    ensures i <= f < |ts| && ts[f].start == FirstFree(ts[i..], NULL) && ts[f].start + c.NodeSize() <= |m|
    ensures m[ts[f].start] == FirstFree(ts[f + 1..], NULL) && LastFree(ts[..f + 1], NULL) == ts[f].start
    ensures var pad, required := Padding(c, ts[f].start, a), Required(c, ts[f].start, size, a);
      BestFound(c, ts, size, a, f + 1) ==
        Consider(BestFound(c, ts, size, a, i), m[ts[f].start + c.word], required, f, ts[f].start, pad, LastFree(ts[..i], NULL))
  {
    f := Visit(c, m, head, ts, i);
    LeftoverIsSmall(c, ts[f], size, a);
    BestStep(c, ts, size, a, i, f);
  }

  lemma {:induction false} BestDone(c: Area, ts: seq<Tile>, size: nat, a: nat, i: nat)
    requires a > 0 && c.limit > 0 && i <= |ts| && FirstFree(ts[i..], NULL) == NULL
    ensures BestFit(c, ts, size, a, i) == BestFit(c, ts, size, a, |ts|)
  {
    NoMoreFree(ts, i);
    SkipToBest(c, ts, size, a, i, |ts|);
  }

  lemma {:induction false} SkipToBest(c: Area, ts: seq<Tile>, size: nat, a: nat, i: nat, f: nat)
    requires a > 0 && c.limit > 0 && i <= f <= |ts| && forall j | i <= j < f :: !ts[j].Free?
    ensures BestFit(c, ts, size, a, i) == BestFit(c, ts, size, a, f)
    decreases f - i
  {
    if i < f {
      SkipToBest(c, ts, size, a, i, f - 1);
    }
  }

  /** Taking block b leads to the state the step function gives, and touches no live block. */
  ghost predicate Gives(
      c: Area, m: seq<int>, head: int, prev: int, b: Tile, n: nat, h: Heap, size: nat, alignment: nat, policy: Policy)
    requires c.Valid() && Representable(c, size, alignment)
  {
    var h' := Step(c, h, DoAlloc(size, alignment, policy));
    && Takeable(c, m, prev, b, n)
    && Good(c, h') && h'.used == h.used + b.size
    && Image(c, TakenMem(c, m, prev, b, n), TakenHead(c, m, head, prev, b, n), h'.tiles)
    && KeepsLive(h.tiles, NULL, m, TakenMem(c, m, prev, b, n))
    && HandsOut(c, LiveSet(h.tiles), LiveSet(h'.tiles), b.ptr, size, alignment)
  }

  /** What an allocation does, for the search result k; b is the block it hands out. */
  lemma {:induction false} AllocOutcome(
      c: Area, m: seq<int>, head: int, h: Heap, size: nat, alignment: nat, policy: Policy) returns (b: Tile)
    requires c.Valid() && Good(c, h) && Image(c, m, head, h.tiles) && Representable(c, size, alignment)
    ensures var r, a := Rounded(c, size, alignment), Alignment(c, alignment);
      var k := Choose(c, policy, h.tiles, r, a);
      && (k == NULL <==> !SomeGapHolds(c, LiveSet(h.tiles), size, alignment))
      && (k == NULL ==> Step(c, h, DoAlloc(size, alignment, policy)) == h)
      && (k != NULL ==>
            && 0 <= k < |h.tiles|
            && var t, prev := h.tiles[k], LastFree(h.tiles[..k], NULL);
            && Selected(c, m, t.start, Padding(c, t.start, a), prev, r, size, b, t.size)
            && Gives(c, m, head, prev, b, t.size, h, size, alignment, policy))
  {
    var r, a := Rounded(c, size, alignment), Alignment(c, alignment);
    var k := Choose(c, policy, h.tiles, r, a);
    AllocSpecOutcome(c, h, size, alignment, policy);
    b := Tile.Free(0, 0);
    if k != NULL {
      b := Carve(c, h.tiles[k], r, a, size)[0];
      CarvedIsSelected(c, m, head, h.tiles, k, size, alignment);
      TilingShape(c, h.tiles);
      Take(c, m, head, h.tiles, k, r, a, size);
    }
  }

  /** The same, on the tiling alone. */
  lemma {:induction false} AllocSpecOutcome(c: Area, h: Heap, size: nat, alignment: nat, policy: Policy)
    requires c.Valid() && Good(c, h) && Representable(c, size, alignment)
    ensures var r, a, op := Rounded(c, size, alignment), Alignment(c, alignment), DoAlloc(size, alignment, policy);
      var k := Choose(c, policy, h.tiles, r, a);
      && Good(c, Step(c, h, op))
      && (k == NULL <==> !SomeGapHolds(c, LiveSet(h.tiles), size, alignment))
      && (k == NULL ==> Step(c, h, op) == h)
      && (k != NULL ==>
            && 0 <= k < |h.tiles| && Fits(c, h.tiles[k], r, a)
            && var b := Carve(c, h.tiles[k], r, a, size)[0];
            && Step(c, h, op) == Heap(AllocAt(c, h.tiles, k, r, a, size), h.used + b.size)
            && b.Live? && HandsOut(c, LiveSet(h.tiles), LiveSet(Step(c, h, op).tiles), b.ptr, size, alignment))
  {
    var r, a := Rounded(c, size, alignment), Alignment(c, alignment);
    var k := Choose(c, policy, h.tiles, r, a);
    ChooseFits(c, policy, h.tiles, size, alignment);
    SomeGapHoldsIsSomeTileFits(c, h, size, alignment);
    if k != NULL {
      assert h.tiles[k] in h.tiles;
      AllocAtKeepsTiling(c, h.tiles, k, size, alignment);
      NewBlockIsClear(c, h, k, size, alignment);
      assert AllocAt(c, h.tiles, k, r, a, size)[k] == Carve(c, h.tiles[k], r, a, size)[0];
    }
  }

  lemma {:induction false} PlaceFound(c: Area, m: seq<int>, us: seq<Tile>, i: nat, j: nat, freeNode: int)
    requires Chain(c, m, us, NULL) && i <= j <= |us|
    requires forall x | 0 <= x < j :: us[x].start < freeNode
    requires FirstFree(us[i..], NULL) == NULL || freeNode < FirstFree(us[i..], NULL)
    ensures LastFree(us[..j], NULL) == LastFree(us[..i], NULL)
  {
    if FirstFree(us[i..], NULL) == NULL {
      NoMoreFree(us, i);
    } else {
      var f := Advance(c, m, us, i);
    }
    LastFreeSkips(us, i, j);
  }

  lemma {:induction false} LastFreeSkips(us: seq<Tile>, i: nat, j: nat)
    requires i <= j <= |us| && forall x | i <= x < j :: !us[x].Free?
    ensures LastFree(us[..j], NULL) == LastFree(us[..i], NULL)
    decreases j - i
  {
    if i < j {
      assert us[..j] == us[..j - 1] + [us[j - 1]] && [us[j - 1]][1..] == [];
      LastFreeAppend(us[..j - 1], [us[j - 1]], NULL);
      LastFreeSkips(us, i, j - 1);
    }
  }

  /** The node prev ends where free tile k starts just when tile k - 1 is that node. */
  ghost predicate MayTouch(c: Area, m: seq<int>, prev: int, ts: seq<Tile>, k: nat) {
    && k < |ts| && ts[k].Free?
    && (prev != NULL ==> 0 <= prev && prev + c.NodeSize() <= |m|)
    && ((prev != NULL && prev + At(m, prev + c.word) == ts[k].start) <==> (k > 0 && ts[k - 1].Free?))
    && (k > 0 && ts[k - 1].Free? ==> prev == ts[k - 1].start)
  }

  /** After the merge to the right, the left neighbour and the predecessor are what they were. */
  lemma {:induction false} AfterRightMerge(c: Area, m: seq<int>, head: int, ts: seq<Tile>, k: nat)
    requires c.Valid() && Tiling(c, ts) && k < |ts| && ts[k].Free? && Image(c, m, head, MergeAt(ts, k))
    ensures var right := MergeAt(ts, k);
      Shape(c, right) && MayTouch(c, m, LastFree(ts[..k], NULL), right, k) && right[k].start == ts[k].start
  {
    MergeOk(c, ts, k);
    var right := MergeAt(ts, k);
    TilingShape(c, right);
    assert right[..k] == ts[..k];
    TouchesPrev(c, m, head, right, k);
    PrevInside(c, m, right, k);
  }

  /** Merging changes which tiles are free, not which cells the live ones have. */
  lemma {:induction false} KeepsLiveAcrossMerge(ts: seq<Tile>, k: nat, m: seq<int>, m': seq<int>)
    requires KeepsLive(MergeAt(ts, k), NULL, m, m')
    ensures KeepsLive(ts, NULL, m, m')
  {
    var right := MergeAt(ts, k);
    if right != ts {
      forall j | 0 <= j < |ts| && ts[j].Live?
        ensures SameCells(m, m', ts[j].start, ts[j].End())
      {
        assert ts[j] == right[if j < k then j else j - 1];
      }
    }
  }

  lemma {:induction false} WalkFacts(c: Area, m: seq<int>, head: int, ts: seq<Tile>, k: nat, m2: seq<int>)
    requires c.Valid() && Tiling(c, ts) && Image(c, m, head, ts) && k < |ts| && ts[k].Live?
    requires SameOutside(m, m2, ts[k].start, ts[k].End())
    ensures var us := ts[..k] + ts[k + 1..];
      && Chain(c, m2, us, NULL) && head == FirstFree(us, NULL) && us[..k] == ts[..k]
      && (forall i | 0 <= i < |us| && us[i].Free? :: us[i].start + c.NodeSize() <= |m2|)
      && (forall i | 0 <= i < k :: us[i].start < ts[k].start)
      && (forall i | k <= i < |us| :: ts[k].start < us[i].start)
  {
    var us := ts[..k] + ts[k + 1..];
    TilingShape(c, ts);
    WalkedList(c, m, head, ts, k, m2);
    TilesDisjoint(ts, 0);
    assert us[..k] == ts[..k];
    forall i | 0 <= i < |us|
      ensures us[i] == ts[if i < k then i else i + 1]
    {
    }
    forall t | t in ts
      ensures t.size >= c.NodeSize() && t.End() <= |m|
    {
      assert Shaped(c, t);
    }
  }

  /** The node found by the search for the place of a freed block leads to the next free tile. */
  lemma {:induction false} ReleasePlace(c: Area, m: seq<int>, head: int, ts: seq<Tile>, k: nat, m2: seq<int>)
    requires c.Valid() && Tiling(c, ts) && Image(c, m, head, ts) && k < |ts| && ts[k].Live?
    requires SameOutside(m, m2, ts[k].start, ts[k].End())
    ensures var prev, s := LastFree(ts[..k], NULL), ts[k].start;
      && s + c.NodeSize() <= ts[k].End() <= |m2| && (prev == NULL || (0 <= prev && prev + c.NodeSize() <= s && OnWord(c.word, prev)))
      && Next(m2, head, prev) == FirstFree(ts[k + 1..], NULL)
  {
    NodeFacts(c, m, head, ts, k);
    Pieces(c, m, head, ts, k);
    var pre, tail := ts[..k], FirstFree(ts[k + 1..], NULL);
    ChainOne(c, m, ts[k], tail);
    ChainFrame(c, m, m2, pre, 0, tail);
    NextAfter(c, m2, pre, 0, tail);
  }

  /** The insertion links the freed node between its neighbours in the list. */
  lemma {:induction false} ReleaseStores(c: Area, m: seq<int>, head: int, ts: seq<Tile>, k: nat, m2: seq<int>)
    requires c.Valid() && Tiling(c, ts) && Image(c, m, head, ts) && k < |ts| && ts[k].Live?
    requires SameOutside(m, m2, ts[k].start, ts[k].End())
    requires At(m2, ts[k].start + c.word) == ts[k].size
    ensures var prev, s := LastFree(ts[..k], NULL), ts[k].start;
      && s + c.NodeSize() <= ts[k].End() <= |m2| && (prev == NULL || (0 <= prev && prev + c.NodeSize() <= s && OnWord(c.word, prev)))
      && var m' := LinkMem(StoreWord(m2, c.word, s, Next(m2, head, prev)), c.word, prev, s);
      && Image(c, m', LinkHead(head, prev, s), Released(ts, k))
      && KeepsLive(ts, k, m, m')
  {
    ReleasePlace(c, m, head, ts, k, m2);
    NodeFacts(c, m, head, ts, k);
    var prev, s, tail := LastFree(ts[..k], NULL), ts[k].start, FirstFree(ts[k + 1..], NULL);
    var mIn := StoreWord(m2, c.word, s, tail);
    assert SameOutside(m, mIn, s, ts[k].End());
    ReleaseImage(c, m, head, ts, k, mIn);
    SpliceKeepsLive(c, ts, k, k, m, mIn, s, LinkMem(mIn, c.word, prev, s));
  }

  lemma {:induction false} ReleasedFacts(c: Area, m: seq<int>, head: int, ts: seq<Tile>, k: nat)
    requires c.Valid() && Tiling(c, ts) && k < |ts| && ts[k].Live? && Image(c, m, head, Released(ts, k))
    ensures var rel := Released(ts, k);
      && Tiling(c, rel) && k < |rel| && rel[k] == Tile.Free(ts[k].start, ts[k].size) && rel[..k] == ts[..k]
      && rel[k].start + c.NodeSize() <= |m| && m[rel[k].start + c.word] == ts[k].size
  {
    var rel := Released(ts, k);
    ReleasedOk(c, ts, k);
    assert rel[..k] == ts[..k];
    NodeFacts(c, m, head, rel, k);
  }

  lemma {:induction false} KeepsLiveAcrossRelease(ts: seq<Tile>, k: nat, m: seq<int>, m': seq<int>)
    requires k < |ts| && KeepsLive(Released(ts, k), NULL, m, m')
    ensures KeepsLive(ts, k, m, m')
  {
    forall j | 0 <= j < |ts| && ts[j].Live? && j != k
      ensures SameCells(m, m', ts[j].start, ts[j].End())
    {
      assert ts[j] == Released(ts, k)[j];
    }
  }
}
