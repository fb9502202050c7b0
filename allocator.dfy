/**
 * The allocator as smalloc.c runs it: the globals heap_size and free_head plus the
 * headers written into the region, updated in place by my_init, smalloc and sfree.
 * Each method is proved to leave exactly the state the value-level model computes,
 * so everything proved about Initial, Malloc and Free holds of the object.
 */
module Smalloc {
  import opened SmallocTypes
  import opened HeapModel
  import opened Allocate
  import opened Release

  class Allocator {
    /** heap_size: the size of the region in bytes. */
    var heapSize: int
    /** The header at the start of every block, keyed by its offset from `heap`. */
    var hdr: map<int, Header>
    /** free_head: the first free block, or None for NULL. */
    var freeHead: Option<int>
    /** The free list in list order, as the links describe it. */
    ghost var free: seq<int>

    /** The object's state as a value of the model. */
    ghost function State(): Heap
      reads this
    {
      Heap(heapSize, hdr, freeHead, free)
    }

    /** The invariant smalloc and sfree keep. */
    ghost predicate Valid()
      reads this
    {
      Inv(State())
    }

    /**
     * my_init (smalloc.c:43-91) once the region is mapped: rounds the request to whole
     * pages and writes one free block spanning the region, which becomes the free list.
     */
    constructor MyInit(sizeOfRegion: int)
      requires sizeOfRegion <= MaxRegionRequest
      ensures State() == Initial(HeapSizeFor(sizeOfRegion))
      ensures Valid()
    {
      heapSize := HeapSizeFor(sizeOfRegion);
      hdr := map[0 := Header(HeapSizeFor(sizeOfRegion), false, None, None)];
      freeHead := Some(0);
      free := [0];
    }

    /**
     * smalloc (smalloc.c:100-213): walks the free list from the head counting hops,
     * and on the first block that fits splits or consumes it and reports success.
     */
    method Smalloc(sizeOfPayload: int) returns (ptr: Option<int>, status: MallocStatus)
      requires Valid() && sizeOfPayload <= MaxPayload
      modifies this
      ensures (State(), ptr, status) == Malloc(old(State()), sizeOfPayload)
      ensures Valid()
    {
      ghost var s0 := State();
      status := Failed;
      if sizeOfPayload <= 0 {
        return None, status;
      }
      var alignedPayload := AlignUp8(sizeOfPayload);
      var requiredBlock := HeaderSize + alignedPayload;
      assert requiredBlock == RequiredBlockSize(sizeOfPayload);
      var current := freeHead;
      var hops := 0;
      while current.Some?
        invariant 0 <= hops <= |free| && current == At(free, hops)
        invariant forall j | 0 <= j < hops :: SizeOf(hdr, free[j]) < requiredBlock
        invariant State() == s0
        decreases |free| - hops
      {
        assert LinksAt(State(), hops);
        var o := current.value;
        var cur := hdr[o];
        if cur.bSize >= requiredBlock {
          FirstFitIsUnique(hdr, free, requiredBlock, hops);
          ptr, status := TakeBlock(sizeOfPayload, o, hops, requiredBlock);
          MallocKeepsInv(s0, sizeOfPayload);
          return ptr, status;
        }
        current := cur.nextFree;
        hops := hops + 1;
      }
      FirstFitIsUnique(hdr, free, requiredBlock, hops);
      return None, status;
    }

    /**
     * The body of the fit branch of smalloc.c:154-205: the block at o, list position
     * hops, is split or consumed, and the status reports its payload and the hops.
     */
    method TakeBlock(sizeOfPayload: int, o: int, hops: int, requiredBlock: int) returns (ptr: Option<int>, status: MallocStatus)
      requires 0 < sizeOfPayload <= MaxPayload && requiredBlock == RequiredBlockSize(sizeOfPayload)
      requires FirstFit(hdr, free, requiredBlock) == Some(hops) && free[hops] == o && o in hdr
      modifies this
      ensures (State(), ptr, status) == Malloc(old(State()), sizeOfPayload)
    {
      var remaining := hdr[o].bSize - requiredBlock;
      if remaining >= MinBlockSize {
        SplitStep(o, hops, requiredBlock);
      } else {
        ConsumeStep(o, hops);
      }
      status := MallocStatus(true, o + HeaderSize, hops);
      return Some(o + HeaderSize), status;
    }

    /**
     * The split of smalloc.c:156-181: the block at o, list position k, shrinks to req
     * bytes and is allocated, and the remaining bytes become a free block that takes its
     * place in the list.
     */
    method SplitStep(o: int, ghost k: int, req: int)
      requires 0 <= k < |free| && free[k] == o && o in hdr
      modifies this
      ensures State() == SplitBlock(old(State()), k, req)
    {
      var cur := hdr[o];
      var remaining := cur.bSize - req;
      hdr := hdr[o := cur.(bSize := req, isAllocated := true)];
      var newFree := o + req;
      hdr := hdr[newFree := Header(remaining, false, cur.nextFree, cur.prevFree)];
      if cur.prevFree.Some? {
        hdr := SetNext(hdr, cur.prevFree.value, Some(newFree));
      } else {
        freeHead := Some(newFree);
      }
      if cur.nextFree.Some? {
        hdr := SetPrev(hdr, cur.nextFree.value, Some(newFree));
      }
      free := free[k := newFree];
    }

    /**
     * The whole-block case of smalloc.c:182-197: the block at o, list position k, is
     * allocated as it is and unlinked.
     */
    method ConsumeStep(o: int, ghost k: int)
      requires 0 <= k < |free| && free[k] == o && o in hdr
      modifies this
      ensures State() == ConsumeBlock(old(State()), k)
    {
      var cur := hdr[o];
      hdr := hdr[o := cur.(isAllocated := true)];
      if cur.prevFree.Some? {
        hdr := SetNext(hdr, cur.prevFree.value, cur.nextFree);
      } else {
        freeHead := cur.nextFree;
      }
      if cur.nextFree.Some? {
        hdr := SetPrev(hdr, cur.nextFree.value, cur.prevFree);
      }
      free := RemoveAt(free, k);
    }

    /**
     * sfree (smalloc.c:221-312): marks the block free, scans for the first free block at
     * or above it, links it in there, and coalesces it with its list predecessor and
     * then with its list successor when they are adjacent in memory.
     */
    method Sfree(ptr: Option<int>)
      requires Valid() && CanFree(State(), ptr)
      modifies this
      ensures State() == Free(old(State()), ptr)
      ensures Valid()
    {
      if ptr.None? {
        return;
      }
      ghost var s0 := State();
      var b := ptr.value - HeaderSize;
      var prev;
      ghost var j;
      prev, j := Scan(b);
      InsertReady(s0, b, j);
      InsertFreeMarked(s0, b, j);
      InsertStep(b, prev, j);
      Coalesce(b, j, s0);
    }

    /**
     * The start of sfree (smalloc.c:252-260): marks the block at b free and walks the
     * free list to the first node at or above it; prev is the node before that one.
     */
    method Scan(b: int) returns (prev: Option<int>, ghost j: int)
      requires Linked(State()) && b in hdr
      modifies this
      ensures j == InsertPos(free, b) && prev == At(free, j - 1) && (0 < j ==> free[j - 1] in hdr)
      ensures State() == old(State()).(hdr := old(hdr)[b := old(hdr)[b].(isAllocated := false)])
    {
      ghost var s0 := State();
      var current := freeHead;
      prev := None;
      hdr := hdr[b := hdr[b].(isAllocated := false)];
      j := 0;
      while current.Some? && current.value < b
        invariant 0 <= j <= |free| && current == At(free, j) && prev == At(free, j - 1)
        invariant forall i | 0 <= i < j :: free[i] < b
        invariant j > 0 ==> free[j - 1] in s0.hdr
        invariant State() == s0.(hdr := s0.hdr[b := s0.hdr[b].(isAllocated := false)])
        decreases |free| - j
      {
        assert LinksAt(s0, j);
        prev := current;
        current := hdr[current.value].nextFree;
        j := j + 1;
      }
    }

    /**
     * The two merges of sfree (smalloc.c:284-311), once the block at b is linked in at
     * list position j of the state s0 that sfree started from.
     */
    method Coalesce(b: int, ghost j: int, ghost s0: Heap)
      requires Inv(s0) && b in s0.hdr && s0.hdr[b].isAllocated && j == InsertPos(s0.free, b)
      requires State() == InsertFree(s0, b, j)
      modifies this
      ensures State() == Free(s0, Some(b + HeaderSize))
    {
      InsertReady(s0, b, j);
      var blk := LeftStep(b, j);
      ghost var c := if MergesLeft(InsertFree(s0, b, j), j) then j - 1 else j;
      assert (State(), c) == FreeLeft(s0, b);
      LeftStageMergeable(s0, b);
      RightStep(blk, c);
    }

    /**
     * The insertion of smalloc.c:261-279 once the block is marked free, with prev the
     * node the scan stopped after (at list position j - 1).
     */
    method InsertStep(b: int, prev: Option<int>, ghost j: int)
      requires b in hdr && !hdr[b].isAllocated
      requires 0 <= j <= |free| && prev == At(free, j - 1) && (0 < j ==> free[j - 1] in hdr)
      modifies this
      ensures State() == InsertFree(old(State()), b, j)
    {
      assert hdr[b := hdr[b].(isAllocated := false)] == hdr;
      if prev.None? {
        hdr := hdr[b := hdr[b].(prevFree := None, nextFree := freeHead)];
        if freeHead.Some? {
          hdr := SetPrev(hdr, freeHead.value, Some(b));
        }
        freeHead := Some(b);
      } else {
        hdr := hdr[b := hdr[b].(prevFree := prev, nextFree := hdr[prev.value].nextFree)];
        hdr := SetNext(hdr, prev.value, Some(b));
        if hdr[b].nextFree.Some? {
          hdr := SetPrev(hdr, hdr[b].nextFree.value, Some(b));
        }
      }
      free := InsertAt(free, j, b);
    }

    /**
     * The left merge of smalloc.c:284-297 on the block b at list position j; returns
     * the surviving block (block_header afterwards).
     */
    method LeftStep(b: int, ghost j: int) returns (blk: int)
      requires LeftMergeable(State(), j) && free[j] == b
      modifies this
      ensures State() == MergeLeft(old(State()), j)
      ensures var c := if MergesLeft(old(State()), j) then j - 1 else j;
        0 <= c < |free| && blk == free[c]
    {
      blk := b;
      if hdr[blk].prevFree.Some? {
        var p := hdr[blk].prevFree.value;
        if p + hdr[p].bSize == blk {
          var next := hdr[blk].nextFree;
          hdr := hdr[p := hdr[p].(bSize := hdr[p].bSize + hdr[blk].bSize, nextFree := next)];
          if next.Some? {
            hdr := SetPrev(hdr, next.value, Some(p));
          }
          hdr := hdr - {blk};
          free := RemoveAt(free, j);
          blk := p;
        }
      }
    }

    /** The right merge of smalloc.c:299-311 on the surviving block blk at list position c. */
    method RightStep(blk: int, ghost c: int)
      requires RightMergeable(State(), c) && free[c] == blk
      modifies this
      ensures State() == MergeRight(old(State()), c)
    {
      if hdr[blk].nextFree.Some? {
        var next := hdr[blk].nextFree.value;
        if blk + hdr[blk].bSize == next {
          var after := hdr[next].nextFree;
          hdr := hdr[blk := hdr[blk].(bSize := hdr[blk].bSize + hdr[next].bSize, nextFree := after)];
          if after.Some? {
            hdr := SetPrev(hdr, after.value, Some(blk));
          }
          hdr := hdr - {next};
          free := RemoveAt(free, c + 1);
        }
      }
    }
  }

  /** Marking the block free before the scan, as sfree does, does not change the insertion. */
  lemma InsertFreeMarked(s: Heap, b: int, j: int)
    requires b in s.hdr && 0 <= j <= |s.free| && (0 < j ==> s.free[j - 1] in s.hdr)
    ensures InsertFree(s.(hdr := s.hdr[b := s.hdr[b].(isAllocated := false)]), b, j) == InsertFree(s, b, j)
  {
    var m := s.hdr[b := s.hdr[b].(isAllocated := false)];
    assert m[b := m[b].(isAllocated := false)] == m;
  }

  /** What the left merge reads: the node at j, its links, and the list predecessor before it. */
  ghost predicate LeftMergeable(s: Heap, j: int)
  {
    && 0 <= j < |s.free| && LinksAt(s, j)
    && (0 < j ==> s.free[j - 1] in s.hdr && s.free[j - 1] < s.free[j])
  }

  /** What the right merge reads: the node at c, its links, and the list successor after it. */
  ghost predicate RightMergeable(s: Heap, c: int)
  {
    && 0 <= c < |s.free| && LinksAt(s, c)
    && (c + 1 < |s.free| ==> s.free[c + 1] in s.hdr && s.free[c] < s.free[c + 1])
  }

  /** After the insertion, the inserted node is ready for the left merge. */
  lemma InsertReady(s: Heap, b: int, j: int)
    requires Inv(s) && b in s.hdr && s.hdr[b].isAllocated && j == InsertPos(s.free, b)
    ensures 0 < j ==> s.free[j - 1] in s.hdr
    ensures LeftMergeable(InsertFree(s, b, j), j) && InsertFree(s, b, j).free[j] == b
  {
    InsertFreeCorrect(s, b, j);
    var s1 := InsertFree(s, b, j);
    MergeLeftCorrect(s1, j);
    assert 0 < j ==> s1.free[j - 1] < s1.free[j];
  }

  /** After the left stage, the survivor is ready for the right merge. */
  lemma LeftStageMergeable(s: Heap, b: int)
    requires Inv(s) && b in s.hdr && s.hdr[b].isAllocated
    ensures RightMergeable(FreeLeft(s, b).0, FreeLeft(s, b).1)
  {
    var (s2, c) := FreeLeft(s, b);
    assert LeftStageOk(s, b, s2, c);
    assert Increasing(s2.free);
    assert c + 1 < |s2.free| ==> s2.free[c] < s2.free[c + 1];
  }
}
