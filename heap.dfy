/**
 * The allocator's state as a value, and the invariants that smalloc and sfree keep:
 * the blocks tile the region, the free list is an address-ordered doubly-linked list
 * of exactly the free blocks, and no two free blocks are address-adjacent.
 */
module HeapModel {
  import opened SmallocTypes

  /**
   * The globals of smalloc.c as one value. Offsets are byte offsets from `heap`, so
   * `heap` itself is offset 0. `hdr` holds the header at the start of every block,
   * keyed by the block's offset; `head` is free_head; `free` lists the free blocks in
   * list order (it is determined by `head` and the links, and serves the proofs).
   */
  datatype Heap = Heap(size: int, hdr: map<int, Header>, head: Option<int>, free: seq<int>)

  /** The i-th element of s, or None (NULL) past either end. */
  function At(s: seq<int>, i: int): Option<int>
  {
    if 0 <= i < |s| then Some(s[i]) else None
  }

  /** s without its k-th element. */
  function RemoveAt(s: seq<int>, k: int): (r: seq<int>)
    requires 0 <= k < |s|
    ensures |r| == |s| - 1
    ensures forall i {:trigger r[i]} | 0 <= i < |r| :: r[i] == if i < k then s[i] else s[i + 1]
  {
    seq(|s| - 1, i requires 0 <= i < |s| - 1 => if i < k then s[i] else s[i + 1])
  }

  /** s with x inserted before its j-th element. */
  function InsertAt(s: seq<int>, j: int, x: int): (r: seq<int>)
    requires 0 <= j <= |s|
    ensures |r| == |s| + 1
    ensures forall i {:trigger r[i]} | 0 <= i < |r| :: r[i] == if i < j then s[i] else if i == j then x else s[i - 1]
  {
    seq(|s| + 1, i requires 0 <= i < |s| + 1 => if i < j then s[i] else if i == j then x else s[i - 1])
  }

  /** The size of the block at o, or 0 where no block starts. */
  function SizeOf(h: map<int, Header>, o: int): int
  {
    if o in h then h[o].bSize else 0
  }

  /** Writes `next_free` of the header at p. */
  function SetNext(h: map<int, Header>, p: int, v: Option<int>): (r: map<int, Header>)
    ensures r.Keys == h.Keys
    ensures p in h ==> r[p] == h[p].(nextFree := v)
    ensures forall x | x in h && x != p :: r[x] == h[x]
  {
    if p in h then h[p := h[p].(nextFree := v)] else h
  }

  /** Writes `prev_free` of the header at p. */
  function SetPrev(h: map<int, Header>, p: int, v: Option<int>): (r: map<int, Header>)
    ensures r.Keys == h.Keys
    ensures p in h ==> r[p] == h[p].(prevFree := v)
    ensures forall x | x in h && x != p :: r[x] == h[x]
  {
    if p in h then h[p := h[p].(prevFree := v)] else h
  }

  /** The block at o is aligned, at least MIN_BLOCK_SIZE long, and ends at the region's end or at another block. */
  ghost predicate BlockOk(h: map<int, Header>, n: int, o: int)
    requires o in h
  {
    && 0 <= o && o % 8 == 0
    && h[o].bSize >= MinBlockSize && h[o].bSize % 8 == 0
    && o + h[o].bSize <= n
    && (o + h[o].bSize == n || o + h[o].bSize in h)
  }

  /** The blocks tile [0, n): the first starts at 0, each ends where another starts or at n, none overlap. */
  ghost predicate Tiled(h: map<int, Header>, n: int)
  {
    && 0 < n && 0 in h
    && (forall o {:trigger BlockOk(h, n, o)} | o in h :: BlockOk(h, n, o))
    && (forall o, p | o in h && p in h && o < p :: o + h[o].bSize <= p)
  }

  /** Strictly increasing, so in particular without repetitions. */
  ghost predicate Increasing(s: seq<int>)
  {
    forall i, j | 0 <= i < j < |s| :: s[i] < s[j]
  }

  /** The links of the i-th node of the free list name its list neighbours (NULL at the ends). */
  ghost predicate LinksAt(s: Heap, i: int)
  {
    && 0 <= i < |s.free| && s.free[i] in s.hdr
    && s.hdr[s.free[i]].nextFree == At(s.free, i + 1)
    && s.hdr[s.free[i]].prevFree == At(s.free, i - 1)
  }

  /**
   * The free list: `head` is its first node, every node is a free block whose next and
   * prev links name its list neighbours, the list is address-ordered, and every free
   * block is on it.
   */
  ghost predicate Linked(s: Heap)
  {
    && s.head == At(s.free, 0)
    && (forall i | 0 <= i < |s.free| :: s.free[i] in s.hdr && !s.hdr[s.free[i]].isAllocated)
    && (forall i {:trigger LinksAt(s, i)} | 0 <= i < |s.free| :: LinksAt(s, i))
    && Increasing(s.free)
    && (forall o | o in s.hdr && !s.hdr[o].isAllocated :: o in s.free)
  }

  /** No free block is immediately followed in memory by another free block. */
  ghost predicate NoAdjacentFree(h: map<int, Header>)
  {
    forall o, p | o in h && p in h && !h[o].isAllocated && !h[p].isAllocated :: o + h[o].bSize != p
  }

  /** Any two address-adjacent free blocks include the block at b: sfree's state right after insertion. */
  ghost predicate AdjacentOnlyAt(h: map<int, Header>, b: int)
  {
    forall x, y | x in h && y in h && !h[x].isAllocated && !h[y].isAllocated && x + h[x].bSize == y :: x == b || y == b
  }

  /** Only the block at c may be followed in memory by a free block: sfree's state between the two merges. */
  ghost predicate AdjacentOnlyFrom(h: map<int, Header>, c: int)
  {
    forall x, y | x in h && y in h && !h[x].isAllocated && !h[y].isAllocated && x + h[x].bSize == y :: x == c
  }

  /** The region size is a whole number of pages that fits in an int, and the blocks tile it. */
  ghost predicate WellFormed(s: Heap)
  {
    && 0 < s.size <= IntMax && s.size % PageSize == 0
    && Tiled(s.hdr, s.size)
    && Linked(s)
  }

  /** The invariant every operation re-establishes before it returns. */
  ghost predicate Inv(s: Heap)
  {
    WellFormed(s) && NoAdjacentFree(s.hdr)
  }

  /** The state my_init installs: one free block spanning the whole region (smalloc.c:74-82). */
  function Initial(n: int): (s: Heap)
    requires 0 < n <= IntMax && n % PageSize == 0
    ensures Inv(s)
    ensures s.size == n && s.hdr.Keys == {0} && s.hdr[0] == Header(n, false, None, None)
    ensures s.free == [0] && s.head == Some(0)
  {
    Heap(n, map[0 := Header(n, false, None, None)], Some(0), [0])
  }

  /** h2 has the same blocks as h, of the same sizes and allocation states; only links may differ. */
  ghost predicate SameShape(h: map<int, Header>, h2: map<int, Header>)
  {
    && h2.Keys == h.Keys
    && forall x | x in h :: h2[x].bSize == h[x].bSize && h2[x].isAllocated == h[x].isAllocated
  }

  /** Tiling and non-adjacency depend only on the blocks' sizes and allocation states. */
  lemma ShapeKeepsTiling(h: map<int, Header>, h2: map<int, Header>, n: int)
    requires SameShape(h, h2)
    ensures Tiled(h, n) ==> Tiled(h2, n)
    ensures NoAdjacentFree(h) ==> NoAdjacentFree(h2)
  {
    if Tiled(h, n) {
      forall o | o in h2 ensures BlockOk(h2, n, o) {
        assert BlockOk(h, n, o);
      }
    }
  }

  /**
   * Changing the allocation state of the block at o, and nothing else about the blocks,
   * keeps the tiling; non-adjacency is kept when o becomes allocated, and otherwise can
   * fail only at o.
   */
  lemma RestateKeepsTiling(h: map<int, Header>, h2: map<int, Header>, n: int, o: int)
    requires o in h && h2.Keys == h.Keys
    requires forall x | x in h :: h2[x].bSize == h[x].bSize
    requires forall x | x in h && x != o :: h2[x].isAllocated == h[x].isAllocated
    ensures Tiled(h, n) ==> Tiled(h2, n)
    ensures NoAdjacentFree(h) && h2[o].isAllocated ==> NoAdjacentFree(h2)
    ensures NoAdjacentFree(h) ==> AdjacentOnlyAt(h2, o)
  {
    if Tiled(h, n) {
      forall x | x in h2 ensures BlockOk(h2, n, x) {
        assert BlockOk(h, n, x);
      }
    }
  }

  /** A link of a free block, when present, names a block. */
  lemma LinkTargets(s: Heap)
    requires Linked(s)
    ensures forall o | o in s.hdr && !s.hdr[o].isAllocated ::
      && (s.hdr[o].nextFree.Some? ==> s.hdr[o].nextFree.value in s.hdr)
      && (s.hdr[o].prevFree.Some? ==> s.hdr[o].prevFree.value in s.hdr)
  {
    forall o | o in s.hdr && !s.hdr[o].isAllocated
      ensures s.hdr[o].nextFree.Some? ==> s.hdr[o].nextFree.value in s.hdr
      ensures s.hdr[o].prevFree.Some? ==> s.hdr[o].prevFree.value in s.hdr
    {
      var i :| 0 <= i < |s.free| && s.free[i] == o;
      assert LinksAt(s, i);
    }
  }

  /** The links are symmetric: a free block's successor links back to it, and so does its predecessor. */
  lemma LinksSymmetric(s: Heap)
    requires Linked(s)
    ensures forall o | o in s.hdr && !s.hdr[o].isAllocated && s.hdr[o].nextFree.Some? ::
      s.hdr[o].nextFree.value in s.hdr && s.hdr[s.hdr[o].nextFree.value].prevFree == Some(o)
    ensures forall o | o in s.hdr && !s.hdr[o].isAllocated && s.hdr[o].prevFree.Some? ::
      s.hdr[o].prevFree.value in s.hdr && s.hdr[s.hdr[o].prevFree.value].nextFree == Some(o)
  {
    forall o | o in s.hdr && !s.hdr[o].isAllocated
      ensures s.hdr[o].nextFree.Some? ==> s.hdr[o].nextFree.value in s.hdr && s.hdr[s.hdr[o].nextFree.value].prevFree == Some(o)
      ensures s.hdr[o].prevFree.Some? ==> s.hdr[o].prevFree.value in s.hdr && s.hdr[s.hdr[o].prevFree.value].nextFree == Some(o)
    {
      var i :| 0 <= i < |s.free| && s.free[i] == o;
      assert LinksAt(s, i);
      if i + 1 < |s.free| {
        assert LinksAt(s, i + 1);
      }
      if 0 < i {
        assert LinksAt(s, i - 1);
      }
    }
  }

  /** The list successor of a free block is the nearest free block above it. */
  lemma NextIsNearestFree(s: Heap, i: int, q: int)
    requires Linked(s)
    requires 0 <= i < |s.free|
    requires q in s.hdr && !s.hdr[q].isAllocated && s.free[i] < q
    ensures i + 1 < |s.free| && s.free[i + 1] <= q
  {
    var m :| 0 <= m < |s.free| && s.free[m] == q;
    assert i < m;
  }

  /** The list predecessor of a free block is the nearest free block below it. */
  lemma PrevIsNearestFree(s: Heap, i: int, q: int)
    requires Linked(s)
    requires 0 <= i < |s.free|
    requires q in s.hdr && !s.hdr[q].isAllocated && q < s.free[i]
    ensures 0 < i && q <= s.free[i - 1]
  {
    var m :| 0 <= m < |s.free| && s.free[m] == q;
    assert m < i;
  }

  /** Every free block appears on the free list exactly once, and no allocated block appears on it. */
  lemma FreeListExactlyOnce(s: Heap)
    requires Linked(s)
    ensures forall o | o in s.hdr :: multiset(s.free)[o] == if s.hdr[o].isAllocated then 0 else 1
  {
    forall o | o in s.hdr
      ensures multiset(s.free)[o] == if s.hdr[o].isAllocated then 0 else 1
    {
      if !s.hdr[o].isAllocated {
        OccursOnce(s.free, o);
      }
    }
  }

  lemma {:induction false} OccursOnce(s: seq<int>, x: int)
    requires Increasing(s) && x in s
    ensures multiset(s)[x] == 1
  {
    assert s == [s[0]] + s[1..];
    if s[0] == x {
      assert x !in s[1..];
    } else {
      OccursOnce(s[1..], x);
    }
  }

  /** The blocks met by walking from offset o by block sizes, stopping at n. */
  ghost function BlocksFrom(h: map<int, Header>, o: int, n: int): seq<int>
    decreases n - o
  {
    if o in h && o < n && h[o].bSize > 0 then [o] + BlocksFrom(h, o + h[o].bSize, n) else []
  }

  /** The total size of the listed blocks. */
  ghost function SumSizes(h: map<int, Header>, bs: seq<int>): int
  {
    if bs == [] then 0 else SizeOf(h, bs[0]) + SumSizes(h, bs[1..])
  }

  /**
   * The tiling in the familiar sense: walking from offset 0 by block sizes visits every
   * block exactly once, in address order, and their sizes add up to the region size.
   */
  lemma RegionIsTiled(h: map<int, Header>, n: int)
    requires Tiled(h, n)
    ensures SumSizes(h, BlocksFrom(h, 0, n)) == n
    ensures forall o :: o in BlocksFrom(h, 0, n) <==> o in h
    ensures Increasing(BlocksFrom(h, 0, n))
  {
    TiledFrom(h, n, 0);
    forall p | p in h ensures 0 <= p {
      assert BlockOk(h, n, p);
    }
  }

  lemma {:induction false} TiledFrom(h: map<int, Header>, n: int, o: int)
    requires Tiled(h, n)
    requires o == n || o in h
    ensures SumSizes(h, BlocksFrom(h, o, n)) == n - o
    ensures forall p :: p in BlocksFrom(h, o, n) <==> p in h && o <= p
    ensures Increasing(BlocksFrom(h, o, n))
    decreases n - o
  {
    if o == n {
      assert BlocksFrom(h, o, n) == [];
      forall p | p in h ensures p < o {
        assert BlockOk(h, n, p);
      }
    } else {
      assert BlockOk(h, n, o);
      var next := o + h[o].bSize;
      TiledFrom(h, n, next);
      var rest := BlocksFrom(h, next, n);
      var all := [o] + rest;
      assert BlocksFrom(h, o, n) == all;
      assert all[1..] == rest;
      assert SumSizes(h, all) == h[o].bSize + SumSizes(h, rest);
      forall p | p in all ensures p in h && o <= p {
        if p != o {
          assert p in rest;
        }
      }
      forall p | p in h && o <= p ensures p in all {
        if p != o {
          assert o + h[o].bSize <= p;
          assert p in rest;
        }
      }
      assert Increasing(all) by {
        forall i, j | 0 <= i < j < |all| ensures all[i] < all[j] {
          if i > 0 {
            assert all[i] == rest[i - 1] && all[j] == rest[j - 1];
          } else {
            assert all[j] in rest;
          }
        }
      }
    }
  }
}
