/**
 * smalloc: the first-fit scan of the free list, then either splitting the chosen
 * block or consuming it whole, and the status record.
 */
module Allocate {
  import opened SmallocTypes
  import opened HeapModel

  /**
   * The list position of the first free block of at least `req` bytes: the one the scan
   * of smalloc.c:150-210 stops at, and the number of blocks it skips (its hops).
   */
  function FirstFit(h: map<int, Header>, free: seq<int>, req: int): (r: Option<int>)
    ensures r.Some? ==> 0 <= r.value < |free| && SizeOf(h, free[r.value]) >= req
    ensures r.Some? ==> forall j | 0 <= j < r.value :: SizeOf(h, free[j]) < req
    ensures r.None? ==> forall j | 0 <= j < |free| :: SizeOf(h, free[j]) < req
  {
    if free == [] then None
    else if SizeOf(h, free[0]) >= req then Some(0)
    else match FirstFit(h, free[1..], req)
      case None => None
      case Some(k) => Some(k + 1)
  }

  /** The contract of FirstFit determines it: a position that fits, after only misfits, is the first fit. */
  lemma FirstFitIsUnique(h: map<int, Header>, free: seq<int>, req: int, k: int)
    requires 0 <= k <= |free|
    requires forall j | 0 <= j < k :: SizeOf(h, free[j]) < req
    requires k < |free| ==> SizeOf(h, free[k]) >= req
    ensures FirstFit(h, free, req) == if k < |free| then Some(k) else None
  {
    var r := FirstFit(h, free, req);
    if r.Some? {
      assert r.value == k;
    }
  }

  /**
   * Splitting the free block at list position k (smalloc.c:161-181): it shrinks to
   * `req` bytes and is marked allocated; a new free block of the remaining bytes is
   * written right after it, takes over its links, and is linked from its neighbours or
   * becomes the head.
   */
  function SplitBlock(s: Heap, k: int, req: int): Heap
    requires 0 <= k < |s.free| && s.free[k] in s.hdr
  {
    var o := s.free[k];
    var cur := s.hdr[o];
    var nf := o + req;
    var h2 := Carve(s.hdr, o, req, cur.nextFree, cur.prevFree);
    var h3 := if cur.prevFree.Some? then SetNext(h2, cur.prevFree.value, Some(nf)) else h2;
    var head := if cur.prevFree.Some? then s.head else Some(nf);
    var h4 := if cur.nextFree.Some? then SetPrev(h3, cur.nextFree.value, Some(nf)) else h3;
    Heap(s.size, h4, head, s.free[k := nf])
  }

  /**
   * Consuming the free block at list position k whole (smalloc.c:184-196): it is marked
   * allocated with its size unchanged, and unlinked by joining its neighbours (or by
   * advancing the head).
   */
  function ConsumeBlock(s: Heap, k: int): Heap
    requires 0 <= k < |s.free| && s.free[k] in s.hdr
  {
    var o := s.free[k];
    var cur := s.hdr[o];
    var h1 := s.hdr[o := cur.(isAllocated := true)];
    var h2 := if cur.prevFree.Some? then SetNext(h1, cur.prevFree.value, cur.nextFree) else h1;
    var head := if cur.prevFree.Some? then s.head else cur.nextFree;
    var h3 := if cur.nextFree.Some? then SetPrev(h2, cur.nextFree.value, cur.prevFree) else h2;
    Heap(s.size, h3, head, RemoveAt(s.free, k))
  }

  /**
   * smalloc (smalloc.c:100-213): the new state, the returned payload offset (None for
   * NULL) and the status record.
   */
  function Malloc(s: Heap, sizeOfPayload: int): (Heap, Option<int>, MallocStatus)
    requires sizeOfPayload <= MaxPayload
  {
    if sizeOfPayload <= 0 then (s, None, Failed)
    else
      var req := RequiredBlockSize(sizeOfPayload);
      match FirstFit(s.hdr, s.free, req)
      case None => (s, None, Failed)
      case Some(k) =>
        var o := s.free[k];
        var s' := if s.hdr[o].bSize - req >= MinBlockSize then SplitBlock(s, k, req) else ConsumeBlock(s, k);
        (s', Some(o + HeaderSize), MallocStatus(true, o + HeaderSize, k))
  }

  /**
   * smalloc fails exactly when the size is not positive or no free block fits, and then
   * it changes nothing and reports success 0, offset -1 and hops -1.
   */
  lemma MallocFails(s: Heap, sizeOfPayload: int)
    requires sizeOfPayload <= MaxPayload
    ensures var (s', ptr, status) := Malloc(s, sizeOfPayload);
      && (ptr.None? <==> (sizeOfPayload <= 0 ||
            forall j | 0 <= j < |s.free| :: SizeOf(s.hdr, s.free[j]) < RequiredBlockSize(sizeOfPayload)))
      && (ptr.None? ==> s' == s && status == Failed)
  {
    if sizeOfPayload > 0 {
      var req := RequiredBlockSize(sizeOfPayload);
      var r := FirstFit(s.hdr, s.free, req);
      if r.Some? {
        assert SizeOf(s.hdr, s.free[r.value]) >= req;
      }
    }
  }

  /**
   * On success smalloc picks the first free block in list order that holds the header
   * and the payload rounded up to 8; hops is the number of blocks skipped before it, and
   * both the returned pointer and payload_offset are that block's offset plus the header.
   */
  lemma MallocIsFirstFit(s: Heap, sizeOfPayload: int)
    requires sizeOfPayload <= MaxPayload
    ensures var (_, ptr, status) := Malloc(s, sizeOfPayload);
      ptr.Some? ==>
        var k := status.hops;
        && sizeOfPayload > 0
        && 0 <= k < |s.free|
        && ptr.value == s.free[k] + HeaderSize
        && status == MallocStatus(true, ptr.value, k)
        && SizeOf(s.hdr, s.free[k]) >= HeaderSize + AlignUp8(sizeOfPayload)
        && forall j | 0 <= j < k :: SizeOf(s.hdr, s.free[j]) < HeaderSize + AlignUp8(sizeOfPayload)
  {
  }

  /**
   * Because the free list is ordered by address and holds every free block, the first fit
   * in list order is the free block of lowest address that holds the request: every free
   * block below it is too small.
   */
  lemma MallocIsLowestFit(s: Heap, sizeOfPayload: int)
    requires Inv(s) && sizeOfPayload <= MaxPayload
    ensures var (_, ptr, _) := Malloc(s, sizeOfPayload);
      ptr.Some? ==>
        var o := ptr.value - HeaderSize;
        && o in s.hdr && !s.hdr[o].isAllocated
        && s.hdr[o].bSize >= HeaderSize + AlignUp8(sizeOfPayload)
        && forall x | x in s.hdr && !s.hdr[x].isAllocated && x < o :: s.hdr[x].bSize < HeaderSize + AlignUp8(sizeOfPayload)
  {
    var (_, ptr, status) := Malloc(s, sizeOfPayload);
    MallocIsFirstFit(s, sizeOfPayload);
    if ptr.Some? {
      var k := status.hops;
      var F := s.free;
      var o := F[k];
      forall x | x in s.hdr && !s.hdr[x].isAllocated && x < o
        ensures s.hdr[x].bSize < HeaderSize + AlignUp8(sizeOfPayload)
      {
        var i :| 0 <= i < |F| && F[i] == x;
        assert SizeOf(s.hdr, F[i]) < HeaderSize + AlignUp8(sizeOfPayload);
      }
    }
  }

  /**
   * The headers after a split of the block at o: it shrinks to `req` bytes and is marked
   * allocated, and a free block of the remaining bytes with links a and b starts after it.
   */
  function Carve(h: map<int, Header>, o: int, req: int, a: Option<int>, b: Option<int>): map<int, Header>
    requires o in h
  {
    h[o := h[o].(bSize := req, isAllocated := true)][o + req := Header(h[o].bSize - req, false, a, b)]
  }

  /** The offset a split writes its new header at lies strictly inside the chosen block. */
  lemma CarveFresh(h: map<int, Header>, n: int, o: int, req: int)
    requires Tiled(h, n) && o in h
    requires req >= MinBlockSize && h[o].bSize - req >= MinBlockSize
    ensures o + req !in h
    ensures forall x | x in h && x > o :: o + h[o].bSize <= x
    ensures forall x | x in h && x < o :: x + h[x].bSize <= o
  {
  }

  /** Every block after a split is well placed. */
  lemma CarveBlocksOk(h: map<int, Header>, n: int, o: int, req: int, a: Option<int>, b: Option<int>)
    requires Tiled(h, n) && o in h
    requires req >= MinBlockSize && req % 8 == 0 && h[o].bSize - req >= MinBlockSize
    ensures forall x | x in Carve(h, o, req, a, b) :: BlockOk(Carve(h, o, req, a, b), n, x)
  {
    var h2 := Carve(h, o, req, a, b);
    var nf := o + req;
    CarveFresh(h, n, o, req);
    assert BlockOk(h, n, o);
    Aligned8(o, req);
    Aligned8(h[o].bSize, req);
    assert BlockOk(h2, n, o);
    assert BlockOk(h2, n, nf);
    forall x | x in h2 && x != o && x != nf ensures BlockOk(h2, n, x) {
      assert BlockOk(h, n, x);
    }
  }

  /** Sums and differences of multiples of 8 are multiples of 8. */
  lemma Aligned8(x: int, y: int)
    requires x % 8 == 0 && y % 8 == 0
    ensures (x + y) % 8 == 0 && (x - y) % 8 == 0
  {
    assert x == 8 * (x / 8) && y == 8 * (y / 8);
    assert x + y == 8 * (x / 8 + y / 8);
    assert x - y == 8 * (x / 8 - y / 8);
  }

  /** No two blocks overlap after a split. */
  lemma CarveDisjoint(h: map<int, Header>, n: int, o: int, req: int, a: Option<int>, b: Option<int>)
    requires Tiled(h, n) && o in h
    requires req >= MinBlockSize && h[o].bSize - req >= MinBlockSize
    ensures var h2 := Carve(h, o, req, a, b);
      forall x, y | x in h2 && y in h2 && x < y :: x + h2[x].bSize <= y
  {
    var h2 := Carve(h, o, req, a, b);
    var nf := o + req;
    CarveFresh(h, n, o, req);
    forall x, y | x in h2 && y in h2 && x < y ensures x + h2[x].bSize <= y {
      if x != nf && y != nf && x != o {
        assert x + h[x].bSize <= y;
      } else if x == o {
        assert y == nf || y > o;
      } else if x == nf {
        assert y > o;
      }
    }
  }

  /** The new block a split writes does not collide with an existing one, and the tiling is kept. */
  lemma SplitTiled(h: map<int, Header>, n: int, o: int, req: int, a: Option<int>, b: Option<int>)
    requires Tiled(h, n) && o in h
    requires req >= MinBlockSize && req % 8 == 0 && h[o].bSize - req >= MinBlockSize
    ensures o + req !in h
    ensures Tiled(Carve(h, o, req, a, b), n)
  {
    CarveFresh(h, n, o, req);
    CarveBlocksOk(h, n, o, req, a, b);
    CarveDisjoint(h, n, o, req, a, b);
  }

  /** A split marks the old block allocated and the new one free, so no two free blocks become adjacent. */
  lemma SplitNoAdjacent(h: map<int, Header>, n: int, o: int, req: int, a: Option<int>, b: Option<int>)
    requires Tiled(h, n) && NoAdjacentFree(h) && o in h && !h[o].isAllocated
    requires req >= MinBlockSize && h[o].bSize - req >= MinBlockSize
    ensures NoAdjacentFree(Carve(h, o, req, a, b))
  {
    var nf := o + req;
    var h2 := Carve(h, o, req, a, b);
    CarveFresh(h, n, o, req);
    forall x, y | x in h2 && y in h2 && !h2[x].isAllocated && !h2[y].isAllocated
      ensures x + h2[x].bSize != y
    {
      if x == nf {
        if y != nf {
          assert y in h && y != o && h2[y] == h[y];
          assert o + h[o].bSize != y;
        }
      } else if y == nf {
        assert x in h && x != o && h2[x] == h[x] && BlockOk(h, n, x);
        assert x > o || x + h[x].bSize <= o;
      } else {
        assert x in h && y in h && h2[x] == h[x] && h2[y] == h[y];
      }
    }
  }

  /**
   * The state after splitting the block at list position k, header by header: the block
   * shrinks to `req` bytes and is allocated; the new free block after it carries the
   * block's list neighbours as its links and takes its place in the list (and at the head
   * when k is 0); the list neighbours now link to the new block; nothing else changes.
   */
  ghost predicate SplitAs(s: Heap, k: int, req: int, r: Heap)
    requires 0 <= k < |s.free| && s.free[k] in s.hdr
  {
    var F := s.free;
    var o := F[k];
    var nf := o + req;
    && r.size == s.size && r.free == F[k := nf]
    && r.head == (if k == 0 then Some(nf) else s.head)
    && r.hdr.Keys == s.hdr.Keys + {nf}
    && r.hdr[o] == s.hdr[o].(bSize := req, isAllocated := true)
    && r.hdr[nf] == Header(s.hdr[o].bSize - req, false, At(F, k + 1), At(F, k - 1))
    && (0 < k && F[k - 1] in s.hdr ==> r.hdr[F[k - 1]] == s.hdr[F[k - 1]].(nextFree := Some(nf)))
    && (k + 1 < |F| && F[k + 1] in s.hdr ==> r.hdr[F[k + 1]] == s.hdr[F[k + 1]].(prevFree := Some(nf)))
    && (forall x | x in s.hdr && x != o && Some(x) != At(F, k - 1) && Some(x) != At(F, k + 1) :: r.hdr[x] == s.hdr[x])
    && (forall x | x in s.hdr && x != o :: r.hdr[x].bSize == s.hdr[x].bSize && r.hdr[x].isAllocated == s.hdr[x].isAllocated)
  }

  /** SplitBlock performs the split SplitAs describes. */
  lemma SplitBlockIs(s: Heap, k: int, req: int)
    requires Linked(s) && 0 <= k < |s.free| && 0 < req && s.free[k] + req !in s.hdr
    ensures SplitAs(s, k, req, SplitBlock(s, k, req))
  {
    assert LinksAt(s, k);
  }

  /** After a split, the new block and the nodes on either side of it link to each other. */
  lemma SplitLinksAt(s: Heap, k: int, req: int, r: Heap, i: int)
    requires 0 <= k < |s.free| && s.free[k] in s.hdr && 0 <= i < |s.free|
    requires Increasing(s.free) && 0 < req && s.free[k] + req !in s.hdr && SplitAs(s, k, req, r)
    requires LinksAt(s, i)
    ensures LinksAt(r, i)
  {
    var F := s.free;
    if i < k - 1 || i > k + 1 {
      assert Some(F[i]) != At(F, k - 1) && Some(F[i]) != At(F, k + 1);
      assert r.hdr[F[i]] == s.hdr[F[i]];
    }
  }

  /** After a split, the list nodes are blocks, free, and every free block is on the list. */
  lemma SplitNodes(s: Heap, k: int, req: int, r: Heap)
    requires Linked(s) && 0 <= k < |s.free| && 0 < req && s.free[k] + req !in s.hdr && SplitAs(s, k, req, r)
    ensures forall i | 0 <= i < |r.free| :: r.free[i] in r.hdr && !r.hdr[r.free[i]].isAllocated
    ensures forall x | x in r.hdr && !r.hdr[x].isAllocated :: x in r.free
  {
    var F := s.free;
    var o := F[k];
    var nf := o + req;
    forall i | 0 <= i < |r.free| ensures r.free[i] in r.hdr && !r.hdr[r.free[i]].isAllocated {
      assert i != k ==> F[i] != o && F[i] != nf && r.free[i] == F[i];
    }
    forall x | x in r.hdr && !r.hdr[x].isAllocated ensures x in r.free {
      if x != nf {
        assert x != o && x in s.hdr && !s.hdr[x].isAllocated;
        var i :| 0 <= i < |F| && F[i] == x;
        assert r.free[i] == x;
      } else {
        assert r.free[k] == nf;
      }
    }
  }

  /** After a split, the list is still address-ordered and starts at the head. */
  lemma SplitOrder(s: Heap, k: int, req: int, r: Heap)
    requires 0 <= k < |s.free| && s.free[k] in s.hdr && s.head == At(s.free, 0) && Increasing(s.free)
    requires 0 < req && SplitAs(s, k, req, r)
    requires forall j | k < j < |s.free| :: s.free[k] + req < s.free[j]
    ensures Increasing(r.free) && r.head == At(r.free, 0)
  {
  }

  /** A split keeps the free list: the new block takes the old one's place in the list. */
  lemma SplitLinked(s: Heap, k: int, req: int, r: Heap)
    requires Linked(s) && 0 <= k < |s.free| && 0 < req && s.free[k] + req !in s.hdr && SplitAs(s, k, req, r)
    requires forall j | k < j < |s.free| :: s.free[k] + req < s.free[j]
    ensures Linked(r)
  {
    SplitNodes(s, k, req, r);
    SplitOrder(s, k, req, r);
    forall i | 0 <= i < |r.free| ensures LinksAt(r, i) {
      assert LinksAt(s, i);
      SplitLinksAt(s, k, req, r, i);
    }
  }

  /** A split as SplitAs describes keeps the tiling and non-adjacency. */
  lemma SplitKeepsTiling(s: Heap, k: int, req: int, r: Heap)
    requires 0 <= k < |s.free| && s.free[k] in s.hdr && !s.hdr[s.free[k]].isAllocated
    requires Tiled(s.hdr, s.size) && NoAdjacentFree(s.hdr)
    requires req >= MinBlockSize && req % 8 == 0 && s.hdr[s.free[k]].bSize - req >= MinBlockSize
    requires SplitAs(s, k, req, r)
    ensures Tiled(r.hdr, s.size) && NoAdjacentFree(r.hdr)
  {
    var o := s.free[k];
    var cur := s.hdr[o];
    SplitTiled(s.hdr, s.size, o, req, cur.nextFree, cur.prevFree);
    SplitNoAdjacent(s.hdr, s.size, o, req, cur.nextFree, cur.prevFree);
    var h2 := Carve(s.hdr, o, req, cur.nextFree, cur.prevFree);
    assert SameShape(h2, r.hdr);
    ShapeKeepsTiling(h2, r.hdr, s.size);
  }

  /** A split as SplitAs describes keeps the invariant. */
  lemma SplitKeepsInv(s: Heap, k: int, req: int, r: Heap)
    requires Inv(s) && 0 <= k < |s.free|
    requires req >= MinBlockSize && req % 8 == 0 && SizeOf(s.hdr, s.free[k]) - req >= MinBlockSize
    requires s.free[k] in s.hdr && SplitAs(s, k, req, r)
    ensures Inv(r)
  {
    var o := s.free[k];
    var nf := o + req;
    CarveFresh(s.hdr, s.size, o, req);
    forall j | k < j < |s.free| ensures nf < s.free[j] {
      assert o < s.free[j];
    }
    SplitKeepsTiling(s, k, req, r);
    SplitLinked(s, k, req, r);
  }

  /**
   * Splitting keeps the invariant and performs the split SplitAs describes: the two
   * blocks it leaves, of `req` bytes and of the rest, make up the chosen block.
   */
  lemma SplitBlockCorrect(s: Heap, k: int, req: int)
    requires Inv(s) && 0 <= k < |s.free|
    requires req >= MinBlockSize && req % 8 == 0 && SizeOf(s.hdr, s.free[k]) - req >= MinBlockSize
    ensures s.free[k] in s.hdr
    ensures Inv(SplitBlock(s, k, req)) && SplitAs(s, k, req, SplitBlock(s, k, req))
  {
    var o := s.free[k];
    CarveFresh(s.hdr, s.size, o, req);
    SplitBlockIs(s, k, req);
    SplitKeepsInv(s, k, req, SplitBlock(s, k, req));
  }

  /**
   * The state after consuming the block at list position k whole, header by header: the
   * block is allocated with its size unchanged and leaves the list (and the head, when k
   * is 0); its list neighbours now link to each other; nothing else changes.
   */
  ghost predicate ConsumedAs(s: Heap, k: int, r: Heap)
    requires 0 <= k < |s.free| && s.free[k] in s.hdr
  {
    var F := s.free;
    var o := F[k];
    && r.size == s.size && |r.free| == |F| - 1
    && (forall i {:trigger r.free[i]} | 0 <= i < |r.free| :: r.free[i] == if i < k then F[i] else F[i + 1])
    && r.head == (if k == 0 then At(F, 1) else s.head)
    && r.hdr.Keys == s.hdr.Keys
    && r.hdr[o] == s.hdr[o].(isAllocated := true)
    && (0 < k && F[k - 1] in s.hdr ==> r.hdr[F[k - 1]] == s.hdr[F[k - 1]].(nextFree := At(F, k + 1)))
    && (k + 1 < |F| && F[k + 1] in s.hdr ==> r.hdr[F[k + 1]] == s.hdr[F[k + 1]].(prevFree := At(F, k - 1)))
    && (forall x | x in s.hdr && x != o && Some(x) != At(F, k - 1) && Some(x) != At(F, k + 1) :: r.hdr[x] == s.hdr[x])
    && (forall x | x in s.hdr && x != o :: r.hdr[x].bSize == s.hdr[x].bSize && r.hdr[x].isAllocated == s.hdr[x].isAllocated)
  }

  /** ConsumeBlock performs the unlinking ConsumedAs describes. */
  lemma ConsumeBlockIs(s: Heap, k: int)
    requires Linked(s) && 0 <= k < |s.free|
    ensures ConsumedAs(s, k, ConsumeBlock(s, k))
  {
    assert LinksAt(s, k);
  }

  /** After a block is consumed, the nodes on either side of it link to each other. */
  lemma ConsumeLinksAt(s: Heap, k: int, r: Heap, i: int)
    requires 0 <= k < |s.free| && s.free[k] in s.hdr && 0 <= i < |s.free| - 1
    requires Increasing(s.free) && ConsumedAs(s, k, r)
    requires LinksAt(s, if i < k then i else i + 1)
    ensures LinksAt(r, i)
  {
    var F := s.free;
    if i < k - 1 {
      assert Some(F[i]) != At(F, k - 1) && Some(F[i]) != At(F, k + 1);
      assert r.hdr[F[i]] == s.hdr[F[i]];
      assert At(r.free, i + 1) == At(F, i + 1) && At(r.free, i - 1) == At(F, i - 1);
    } else if i == k - 1 {
      assert At(r.free, i + 1) == At(F, k + 1) && At(r.free, i - 1) == At(F, i - 1);
    } else if i == k {
      assert At(r.free, i + 1) == At(F, k + 2) && At(r.free, i - 1) == At(F, k - 1);
    } else {
      assert Some(F[i + 1]) != At(F, k - 1) && Some(F[i + 1]) != At(F, k + 1);
      assert r.hdr[F[i + 1]] == s.hdr[F[i + 1]];
      assert At(r.free, i + 1) == At(F, i + 2) && At(r.free, i - 1) == At(F, i);
    }
  }

  /** After a block is consumed, the list nodes are blocks, free, and every free block is on the list. */
  lemma ConsumeNodes(s: Heap, k: int, r: Heap)
    requires Linked(s) && 0 <= k < |s.free| && ConsumedAs(s, k, r)
    ensures forall i | 0 <= i < |r.free| :: r.free[i] in r.hdr && !r.hdr[r.free[i]].isAllocated
    ensures forall x | x in r.hdr && !r.hdr[x].isAllocated :: x in r.free
    ensures Increasing(r.free) && r.head == At(r.free, 0)
  {
    var F := s.free;
    var o := F[k];
    forall i | 0 <= i < |r.free| ensures r.free[i] in r.hdr && !r.hdr[r.free[i]].isAllocated {
      assert i < k ==> F[i] != o;
      assert i >= k ==> F[i + 1] != o;
    }
    forall x | x in r.hdr && !r.hdr[x].isAllocated ensures x in r.free {
      assert x != o && x in s.hdr && !s.hdr[x].isAllocated;
      var i :| 0 <= i < |F| && F[i] == x;
      assert i != k;
      if i < k {
        assert r.free[i] == x;
      } else {
        assert r.free[i - 1] == x;
      }
    }
  }

  /** Consuming a block keeps the free list: the block leaves it and its neighbours are joined. */
  lemma ConsumeLinked(s: Heap, k: int, r: Heap)
    requires Linked(s) && 0 <= k < |s.free| && ConsumedAs(s, k, r)
    ensures Linked(r)
  {
    ConsumeNodes(s, k, r);
    forall i | 0 <= i < |r.free| ensures LinksAt(r, i) {
      assert LinksAt(s, if i < k then i else i + 1);
      ConsumeLinksAt(s, k, r, i);
    }
  }

  /** Consuming a block whole keeps the invariant and performs the unlinking ConsumedAs describes. */
  lemma ConsumeBlockCorrect(s: Heap, k: int)
    requires Inv(s) && 0 <= k < |s.free|
    ensures s.free[k] in s.hdr
    ensures var r := ConsumeBlock(s, k); Inv(r) && ConsumedAs(s, k, r)
  {
    var r := ConsumeBlock(s, k);
    ConsumeBlockIs(s, k);
    ConsumeLinked(s, k, r);
    RestateKeepsTiling(s.hdr, r.hdr, s.size, s.free[k]);
  }

  /**
   * smalloc keeps the invariant and the region size; a returned payload is 8-aligned,
   * lies in an allocated block (off the free list) that holds at least the requested
   * bytes, and ends inside the region.
   */
  lemma MallocKeepsInv(s: Heap, sizeOfPayload: int)
    requires Inv(s) && sizeOfPayload <= MaxPayload
    ensures var (s', ptr, _) := Malloc(s, sizeOfPayload);
      && Inv(s') && s'.size == s.size
      && (ptr.Some? ==>
            var o := ptr.value - HeaderSize;
            && ptr.value % 8 == 0
            && o in s'.hdr && s'.hdr[o].isAllocated && o !in s'.free
            && s'.hdr[o].bSize >= HeaderSize + sizeOfPayload
            && o + s'.hdr[o].bSize <= s.size)
  {
    if sizeOfPayload > 0 {
      var req := RequiredBlockSize(sizeOfPayload);
      var r := FirstFit(s.hdr, s.free, req);
      if r.Some? {
        var k := r.value;
        var o := s.free[k];
        assert BlockOk(s.hdr, s.size, o);
        PayloadAligned(o);
        var s' := Malloc(s, sizeOfPayload).0;
        if s.hdr[o].bSize - req >= MinBlockSize {
          SplitBlockCorrect(s, k, req);
          assert s' == SplitBlock(s, k, req);
        } else {
          ConsumeBlockCorrect(s, k);
          assert s' == ConsumeBlock(s, k);
        }
        AllocatedBlockPlaced(s', o);
      }
    }
  }

  /** The payload after an 8-aligned header is 8-aligned. */
  lemma PayloadAligned(o: int)
    requires o % 8 == 0
    ensures (o + HeaderSize) % 8 == 0
  {
  }

  /** An allocated block of a well-formed state is off the free list and ends inside the region. */
  lemma AllocatedBlockPlaced(s: Heap, o: int)
    requires WellFormed(s) && o in s.hdr && s.hdr[o].isAllocated
    ensures o !in s.free && o + s.hdr[o].bSize <= s.size
  {
    assert BlockOk(s.hdr, s.size, o);
  }
}
