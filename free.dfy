/**
 * sfree: marking the block free, inserting it into the free list in address order,
 * then coalescing it with its list predecessor and afterwards with its list successor.
 */
module Release {
  import opened SmallocTypes
  import opened HeapModel

  /**
   * Where the scan of smalloc.c:257-260 stops: the list position of the first node at
   * or above b (the end of the list when there is none).
   */
  function InsertPos(free: seq<int>, b: int): (j: int)
    ensures 0 <= j <= |free|
    ensures forall i | 0 <= i < j :: free[i] < b
    ensures j < |free| ==> free[j] >= b
  {
    if free == [] || free[0] >= b then 0 else 1 + InsertPos(free[1..], b)
  }

  /** sfree's contract: the pointer is NULL or the payload of an allocated block. */
  predicate CanFree(s: Heap, ptr: Option<int>)
  {
    ptr.Some? ==> ptr.value - HeaderSize in s.hdr && s.hdr[ptr.value - HeaderSize].isAllocated
  }

  /**
   * Marking the block at b free and linking it in before list position j
   * (smalloc.c:255, 261-279): at the head when j is 0, else after the node at j - 1.
   */
  function InsertFree(s: Heap, b: int, j: int): Heap
    requires b in s.hdr && 0 <= j <= |s.free| && (0 < j ==> s.free[j - 1] in s.hdr)
  {
    var h0 := s.hdr[b := s.hdr[b].(isAllocated := false)];
    if j == 0 then
      var h1 := h0[b := h0[b].(prevFree := None, nextFree := s.head)];
      var h2 := if s.head.Some? then SetPrev(h1, s.head.value, Some(b)) else h1;
      Heap(s.size, h2, Some(b), InsertAt(s.free, 0, b))
    else
      var p := s.free[j - 1];
      var h1 := h0[b := h0[b].(prevFree := Some(p), nextFree := h0[p].nextFree)];
      var h2 := SetNext(h1, p, Some(b));
      var h3 := if h2[b].nextFree.Some? then SetPrev(h2, h2[b].nextFree.value, Some(b)) else h2;
      Heap(s.size, h3, s.head, InsertAt(s.free, j, b))
  }

  /**
   * The state after inserting the block at b before list position j, header by header:
   * b is free with its list neighbours as links and sits at position j (and at the head
   * when j is 0); its neighbours link to it; nothing else changes.
   */
  ghost predicate InsertedAs(s: Heap, b: int, j: int, r: Heap)
    requires b in s.hdr && 0 <= j <= |s.free|
  {
    var F := s.free;
    && r.size == s.size && |r.free| == |F| + 1
    && (forall i {:trigger r.free[i]} | 0 <= i < |r.free| :: r.free[i] == if i < j then F[i] else if i == j then b else F[i - 1])
    && r.head == (if j == 0 then Some(b) else s.head)
    && r.hdr.Keys == s.hdr.Keys
    && r.hdr[b] == Header(s.hdr[b].bSize, false, At(F, j), At(F, j - 1))
    && (0 < j && F[j - 1] in s.hdr ==> r.hdr[F[j - 1]] == s.hdr[F[j - 1]].(nextFree := Some(b)))
    && (j < |F| && F[j] in s.hdr ==> r.hdr[F[j]] == s.hdr[F[j]].(prevFree := Some(b)))
    && (forall x | x in s.hdr && x != b && Some(x) != At(F, j - 1) && Some(x) != At(F, j) :: r.hdr[x] == s.hdr[x])
    && (forall x | x in s.hdr && x != b :: r.hdr[x].bSize == s.hdr[x].bSize && r.hdr[x].isAllocated == s.hdr[x].isAllocated)
  }

  /** InsertFree performs the insertion InsertedAs describes. */
  lemma InsertFreeIs(s: Heap, b: int, j: int)
    requires Linked(s) && b in s.hdr && s.hdr[b].isAllocated && 0 <= j <= |s.free|
    ensures 0 < j ==> s.free[j - 1] in s.hdr
    ensures InsertedAs(s, b, j, InsertFree(s, b, j))
  {
    if 0 < j {
      assert LinksAt(s, j - 1);
    }
  }

  /** After an insertion, the list nodes are blocks, free, and every free block is on the list. */
  lemma InsertNodes(s: Heap, b: int, j: int, r: Heap)
    requires Linked(s) && b in s.hdr && s.hdr[b].isAllocated && 0 <= j <= |s.free| && InsertedAs(s, b, j, r)
    ensures forall i | 0 <= i < |r.free| :: r.free[i] in r.hdr && !r.hdr[r.free[i]].isAllocated
    ensures forall x | x in r.hdr && !r.hdr[x].isAllocated :: x in r.free
  {
    var F := s.free;
    forall i | 0 <= i < |r.free| ensures r.free[i] in r.hdr && !r.hdr[r.free[i]].isAllocated {
      assert i < j ==> F[i] != b;
      assert i > j ==> F[i - 1] != b;
    }
    forall x | x in r.hdr && !r.hdr[x].isAllocated ensures x in r.free {
      if x != b {
        var i :| 0 <= i < |F| && F[i] == x;
        if i < j {
          assert r.free[i] == x;
        } else {
          assert r.free[i + 1] == x;
        }
      } else {
        assert r.free[j] == b;
      }
    }
  }

  /** An insertion between the last node below b and the first above it keeps the list ordered. */
  lemma InsertOrder(s: Heap, b: int, j: int, r: Heap)
    requires b in s.hdr && 0 <= j <= |s.free| && InsertedAs(s, b, j, r)
    requires Increasing(s.free) && s.head == At(s.free, 0)
    requires forall i | 0 <= i < j :: s.free[i] < b
    requires j < |s.free| ==> b < s.free[j]
    ensures Increasing(r.free) && r.head == At(r.free, 0)
  {
    var F := s.free;
    forall i, k | 0 <= i < k < |r.free| ensures r.free[i] < r.free[k] {
      if k < j {
      } else if k == j {
      } else if i < j {
        assert F[i] < b < F[j] <= F[k - 1];
      } else if i == j {
        assert b < F[j] <= F[k - 1];
      }
    }
  }

  /** After an insertion, b and the nodes on either side of it link to each other. */
  lemma InsertLinksAt(s: Heap, b: int, j: int, r: Heap, i: int)
    requires b in s.hdr && 0 <= j <= |s.free| && InsertedAs(s, b, j, r) && 0 <= i < |r.free|
    requires Increasing(s.free) && forall t | 0 <= t < |s.free| :: s.free[t] != b
    requires i != j ==> LinksAt(s, if i < j then i else i - 1)
    ensures LinksAt(r, i)
  {
    var F := s.free;
    if i < j - 1 {
      assert Some(F[i]) != At(F, j - 1) && Some(F[i]) != At(F, j);
      assert r.hdr[F[i]] == s.hdr[F[i]];
      assert At(r.free, i + 1) == At(F, i + 1) && At(r.free, i - 1) == At(F, i - 1);
    } else if i == j - 1 {
      assert At(r.free, i + 1) == Some(b) && At(r.free, i - 1) == At(F, i - 1);
    } else if i == j {
      assert At(r.free, i + 1) == At(F, j) && At(r.free, i - 1) == At(F, j - 1);
    } else if i == j + 1 {
      assert At(r.free, i + 1) == At(F, j + 1) && At(r.free, i - 1) == Some(b);
    } else {
      assert Some(F[i - 1]) != At(F, j - 1) && Some(F[i - 1]) != At(F, j);
      assert r.hdr[F[i - 1]] == s.hdr[F[i - 1]];
      assert At(r.free, i + 1) == At(F, i) && At(r.free, i - 1) == At(F, i - 2);
    }
  }

  /** An insertion at the position the scan finds keeps the free list. */
  lemma InsertLinked(s: Heap, b: int, j: int, r: Heap)
    requires Linked(s) && b in s.hdr && s.hdr[b].isAllocated && 0 <= j <= |s.free| && InsertedAs(s, b, j, r)
    requires forall i | 0 <= i < j :: s.free[i] < b
    requires j < |s.free| ==> b < s.free[j]
    ensures Linked(r)
  {
    InsertNodes(s, b, j, r);
    InsertOrder(s, b, j, r);
    forall i | 0 <= i < |r.free| ensures LinksAt(r, i) {
      if i != j {
        assert LinksAt(s, if i < j then i else i - 1);
      }
      InsertLinksAt(s, b, j, r, i);
    }
  }

  /**
   * Inserting an allocated block at the position the scan finds keeps the tiling and the
   * free list, performs the insertion InsertedAs describes, and leaves address-adjacent
   * free blocks only where b is one of them.
   */
  lemma InsertFreeCorrect(s: Heap, b: int, j: int)
    requires Inv(s) && b in s.hdr && s.hdr[b].isAllocated && j == InsertPos(s.free, b)
    ensures 0 < j ==> s.free[j - 1] in s.hdr
    ensures var r := InsertFree(s, b, j);
      && WellFormed(r) && AdjacentOnlyAt(r.hdr, b) && InsertedAs(s, b, j, r)
      && j < |r.free| && r.free[j] == b
  {
    var r := InsertFree(s, b, j);
    InsertFreeIs(s, b, j);
    if j < |s.free| {
      assert s.free[j] != b;
    }
    InsertLinked(s, b, j, r);
    RestateKeepsTiling(s.hdr, r.hdr, s.size, b);
  }

  /**
   * The block at p absorbs the block at q that follows it in memory (smalloc.c:288-292 and
   * 304-308): p's size grows by q's, p takes over q's next link, the node after q now
   * links back to p, and q's header is no longer the start of a block.
   */
  function Absorb(h: map<int, Header>, p: int, q: int): map<int, Header>
    requires p in h && q in h
  {
    var nq := h[q].nextFree;
    var h1 := h[p := h[p].(bSize := h[p].bSize + h[q].bSize, nextFree := nq)];
    var h2 := if nq.Some? then SetPrev(h1, nq.value, Some(p)) else h1;
    h2 - {q}
  }

  /** The test of smalloc.c:284-287: the block's list predecessor ends exactly where it starts. */
  predicate MergesLeft(s: Heap, j: int)
    requires 0 <= j < |s.free| && s.free[j] in s.hdr && LinksAt(s, j) && (0 < j ==> s.free[j - 1] in s.hdr)
  {
    var b := s.free[j];
    var pf := s.hdr[b].prevFree;
    pf.Some? && pf.value + s.hdr[pf.value].bSize == b
  }

  /** Coalescing the list node at j into its list predecessor when they are adjacent (smalloc.c:284-297). */
  function MergeLeft(s: Heap, j: int): Heap
    requires 0 <= j < |s.free| && s.free[j] in s.hdr && LinksAt(s, j) && (0 < j ==> s.free[j - 1] in s.hdr)
  {
    if MergesLeft(s, j) then
      Heap(s.size, Absorb(s.hdr, s.hdr[s.free[j]].prevFree.value, s.free[j]), s.head, RemoveAt(s.free, j))
    else s
  }

  /** The test of smalloc.c:299-303: the block ends exactly where its list successor starts. */
  predicate MergesRight(s: Heap, i: int)
    requires 0 <= i < |s.free| && s.free[i] in s.hdr && LinksAt(s, i) && (i + 1 < |s.free| ==> s.free[i + 1] in s.hdr)
  {
    var c := s.free[i];
    var nf := s.hdr[c].nextFree;
    nf.Some? && c + s.hdr[c].bSize == nf.value
  }

  /** Coalescing the list successor into the node at i when they are adjacent (smalloc.c:299-311). */
  function MergeRight(s: Heap, i: int): Heap
    requires 0 <= i < |s.free| && s.free[i] in s.hdr && LinksAt(s, i) && (i + 1 < |s.free| ==> s.free[i + 1] in s.hdr)
  {
    if MergesRight(s, i) then
      Heap(s.size, Absorb(s.hdr, s.free[i], s.hdr[s.free[i]].nextFree.value), s.head, RemoveAt(s.free, i + 1))
    else s
  }

  /**
   * The state after the list node at i absorbs the node at i + 1, header by header: the
   * node at i grows by the other's size and links to the node after it, which links back;
   * the absorbed node leaves the list and is no longer a block; nothing else changes.
   */
  ghost predicate MergedAs(s: Heap, i: int, r: Heap)
    requires 0 <= i && i + 1 < |s.free| && s.free[i] in s.hdr && s.free[i + 1] in s.hdr
  {
    var F := s.free;
    var p := F[i];
    var q := F[i + 1];
    && r.size == s.size && |r.free| == |F| - 1
    && (forall t {:trigger r.free[t]} | 0 <= t < |r.free| :: r.free[t] == if t <= i then F[t] else F[t + 1])
    && r.head == s.head
    && r.hdr.Keys == s.hdr.Keys - {q}
    && p in r.hdr && r.hdr[p] == s.hdr[p].(bSize := s.hdr[p].bSize + s.hdr[q].bSize, nextFree := At(F, i + 2))
    && (i + 2 < |F| && F[i + 2] in s.hdr ==> F[i + 2] in r.hdr && r.hdr[F[i + 2]] == s.hdr[F[i + 2]].(prevFree := Some(p)))
    && (forall x | x in s.hdr && x != p && x != q && Some(x) != At(F, i + 2) :: r.hdr[x] == s.hdr[x])
    && (forall x | x in s.hdr && x != p && x != q :: r.hdr[x].bSize == s.hdr[x].bSize && r.hdr[x].isAllocated == s.hdr[x].isAllocated)
  }

  /** Absorbing the list successor performs the merge MergedAs describes. */
  lemma AbsorbIs(s: Heap, i: int)
    requires Linked(s) && 0 <= i && i + 1 < |s.free|
    ensures MergedAs(s, i, Heap(s.size, Absorb(s.hdr, s.free[i], s.free[i + 1]), s.head, RemoveAt(s.free, i + 1)))
  {
    assert LinksAt(s, i + 1);
  }

  /** After a merge, the list nodes are blocks, free, and every free block is on the list. */
  lemma MergedNodes(s: Heap, i: int, r: Heap)
    requires Linked(s) && 0 <= i && i + 1 < |s.free| && MergedAs(s, i, r)
    ensures forall t | 0 <= t < |r.free| :: r.free[t] in r.hdr && !r.hdr[r.free[t]].isAllocated
    ensures forall x | x in r.hdr && !r.hdr[x].isAllocated :: x in r.free
  {
    var F := s.free;
    forall t | 0 <= t < |r.free| ensures r.free[t] in r.hdr && !r.hdr[r.free[t]].isAllocated {
      if t <= i {
        assert F[t] != F[i + 1];
      } else {
        assert F[t + 1] != F[i + 1];
      }
    }
    forall x | x in r.hdr && !r.hdr[x].isAllocated ensures x in r.free {
      if x == F[i] {
        assert r.free[i] == x;
      } else {
        var m :| 0 <= m < |F| && F[m] == x;
        if m <= i {
          assert r.free[m] == x;
        } else {
          assert r.free[m - 1] == x;
        }
      }
    }
  }

  /** A merge keeps the list ordered and its head. */
  lemma MergedOrder(s: Heap, i: int, r: Heap)
    requires 0 <= i && i + 1 < |s.free| && s.free[i] in s.hdr && s.free[i + 1] in s.hdr && MergedAs(s, i, r)
    requires Increasing(s.free) && s.head == At(s.free, 0)
    ensures Increasing(r.free) && r.head == At(r.free, 0)
  {
  }

  /** After a merge, the surviving node and the node after it link to each other. */
  lemma MergedLinksAt(s: Heap, i: int, r: Heap, t: int)
    requires 0 <= i && i + 1 < |s.free| && s.free[i] in s.hdr && s.free[i + 1] in s.hdr && MergedAs(s, i, r)
    requires Increasing(s.free) && 0 <= t < |r.free|
    requires LinksAt(s, if t <= i then t else t + 1)
    ensures LinksAt(r, t)
  {
    var F := s.free;
    if t < i {
      assert Some(F[t]) != At(F, i + 2);
      assert r.hdr[F[t]] == s.hdr[F[t]];
      assert At(r.free, t + 1) == At(F, t + 1) && At(r.free, t - 1) == At(F, t - 1);
    } else if t == i {
      assert At(r.free, t + 1) == At(F, i + 2) && At(r.free, t - 1) == At(F, i - 1);
    } else if t == i + 1 {
      assert At(r.free, t + 1) == At(F, i + 3) && At(r.free, t - 1) == Some(F[i]);
    } else {
      assert Some(F[t + 1]) != At(F, i + 2);
      assert r.hdr[F[t + 1]] == s.hdr[F[t + 1]];
      assert At(r.free, t + 1) == At(F, t + 2) && At(r.free, t - 1) == At(F, t);
    }
  }

  /** A merge keeps the free list. */
  lemma MergedLinked(s: Heap, i: int, r: Heap)
    requires Linked(s) && 0 <= i && i + 1 < |s.free| && MergedAs(s, i, r)
    ensures Linked(r)
  {
    MergedNodes(s, i, r);
    MergedOrder(s, i, r);
    forall t | 0 <= t < |r.free| ensures LinksAt(r, t) {
      assert LinksAt(s, if t <= i then t else t + 1);
      MergedLinksAt(s, i, r, t);
    }
  }

  /** h2 is h after the block at p absorbed the block at q right after it, as far as sizes go. */
  ghost predicate AbsorbedSizes(h: map<int, Header>, h2: map<int, Header>, p: int, q: int)
  {
    && p in h && q in h && p + h[p].bSize == q
    && h2.Keys == h.Keys - {q} && p in h2
    && h2[p].bSize == h[p].bSize + h[q].bSize
    && forall x | x in h2 && x != p :: h2[x].bSize == h[x].bSize
  }

  /** After an absorption, every block is well placed. */
  lemma AbsorbBlocksOk(h: map<int, Header>, h2: map<int, Header>, n: int, p: int, q: int)
    requires Tiled(h, n) && AbsorbedSizes(h, h2, p, q)
    ensures forall x | x in h2 :: BlockOk(h2, n, x)
  {
    assert BlockOk(h, n, p) && BlockOk(h, n, q);
    forall x | x in h2 ensures BlockOk(h2, n, x) {
      assert BlockOk(h, n, x);
      if x != p {
        assert x < p ==> x + h[x].bSize <= p;
        assert x > p ==> x > q;
      }
    }
  }

  /** After an absorption, no two blocks overlap. */
  lemma AbsorbDisjoint(h: map<int, Header>, h2: map<int, Header>, n: int, p: int, q: int)
    requires Tiled(h, n) && AbsorbedSizes(h, h2, p, q)
    ensures forall x, y | x in h2 && y in h2 && x < y :: x + h2[x].bSize <= y
  {
    assert BlockOk(h, n, p);
    forall x, y | x in h2 && y in h2 && x < y ensures x + h2[x].bSize <= y {
      if x == p {
        assert y > q;
        assert q + h[q].bSize <= y;
      } else {
        assert x + h[x].bSize <= y;
      }
    }
  }

  /** An absorption keeps the tiling: the two blocks become one covering both. */
  lemma AbsorbTiled(h: map<int, Header>, h2: map<int, Header>, n: int, p: int, q: int)
    requires Tiled(h, n) && AbsorbedSizes(h, h2, p, q)
    ensures Tiled(h2, n)
  {
    assert BlockOk(h, n, p);
    AbsorbBlocksOk(h, h2, n, p, q);
    AbsorbDisjoint(h, h2, n, p, q);
  }

  /** The allocation states after p absorbed q: p stays free and nothing else changes state. */
  ghost predicate AbsorbedStates(h: map<int, Header>, h2: map<int, Header>, p: int, q: int)
  {
    && p in h && q in h && p in h2 && !h[p].isAllocated && !h[q].isAllocated && !h2[p].isAllocated
    && forall x | x in h2 && x != p :: x in h && h2[x].isAllocated == h[x].isAllocated
  }

  /** Merging the inserted block into its predecessor leaves adjacent free blocks only after the merged block. */
  lemma AbsorbLeftAdjacency(h: map<int, Header>, h2: map<int, Header>, n: int, p: int, q: int)
    requires Tiled(h, n) && AbsorbedSizes(h, h2, p, q) && AbsorbedStates(h, h2, p, q)
    requires AdjacentOnlyAt(h, q)
    ensures AdjacentOnlyFrom(h2, p)
  {
    assert BlockOk(h, n, p);
  }

  /** Merging the surviving block with its adjacent successor leaves no adjacent free blocks. */
  lemma AbsorbRightAdjacency(h: map<int, Header>, h2: map<int, Header>, n: int, c: int, q: int)
    requires Tiled(h, n) && AbsorbedSizes(h, h2, c, q) && AbsorbedStates(h, h2, c, q)
    requires AdjacentOnlyFrom(h, c)
    ensures NoAdjacentFree(h2)
  {
    assert BlockOk(h, n, c) && BlockOk(h, n, q);
    forall x, y | x in h2 && y in h2 && !h2[x].isAllocated && !h2[y].isAllocated
      ensures x + h2[x].bSize != y
    {
      if x == c {
        if y != c {
          assert h2[y].isAllocated == h[y].isAllocated;
          assert q + h[q].bSize != y;
        }
      } else if y == c {
        assert x + h[x].bSize != c;
      } else {
        assert h2[y].isAllocated == h[y].isAllocated;
        assert x + h[x].bSize != y;
      }
    }
  }

  /** A free block that does not end at its list successor ends at no free block at all. */
  lemma NoRightNeighbour(s: Heap, i: int)
    requires WellFormed(s) && 0 <= i < |s.free|
    requires !(i + 1 < |s.free| && s.free[i] + s.hdr[s.free[i]].bSize == s.free[i + 1])
    ensures forall y | y in s.hdr && !s.hdr[y].isAllocated :: s.free[i] + s.hdr[s.free[i]].bSize != y
  {
    var F := s.free;
    var c := F[i];
    forall y | y in s.hdr && !s.hdr[y].isAllocated ensures c + s.hdr[c].bSize != y {
      assert BlockOk(s.hdr, s.size, c);
    }
  }

  /** A free block whose list predecessor does not end at it follows no free block at all. */
  lemma NoLeftNeighbour(s: Heap, j: int)
    requires WellFormed(s) && 0 <= j < |s.free|
    requires !(0 < j && s.free[j - 1] + s.hdr[s.free[j - 1]].bSize == s.free[j])
    ensures forall x | x in s.hdr && !s.hdr[x].isAllocated :: x + s.hdr[x].bSize != s.free[j]
  {
    var F := s.free;
    forall x | x in s.hdr && !s.hdr[x].isAllocated ensures x + s.hdr[x].bSize != F[j] {
      assert BlockOk(s.hdr, s.size, x);
    }
  }

  /**
   * A merge of adjacent free blocks keeps the tiling and the free list; only the
   * survivor's size changes, and no allocated block changes at all.
   */
  lemma MergedWellFormed(s: Heap, i: int, r: Heap)
    requires WellFormed(s) && 0 <= i && i + 1 < |s.free| && MergedAs(s, i, r)
    requires s.free[i] + s.hdr[s.free[i]].bSize == s.free[i + 1]
    ensures WellFormed(r)
    ensures AbsorbedSizes(s.hdr, r.hdr, s.free[i], s.free[i + 1]) && AbsorbedStates(s.hdr, r.hdr, s.free[i], s.free[i + 1])
    ensures forall x | x in s.hdr && s.hdr[x].isAllocated :: x in r.hdr && r.hdr[x] == s.hdr[x]
  {
    var F := s.free;
    MergedLinked(s, i, r);
    assert AbsorbedSizes(s.hdr, r.hdr, F[i], F[i + 1]);
    assert AbsorbedStates(s.hdr, r.hdr, F[i], F[i + 1]);
    AbsorbTiled(s.hdr, r.hdr, s.size, F[i], F[i + 1]);
    forall x | x in s.hdr && s.hdr[x].isAllocated ensures x in r.hdr && r.hdr[x] == s.hdr[x] {
      assert Some(x) != At(F, i + 2);
    }
  }

  /**
   * The state after the left merge, with c the surviving block's list position: the tiling
   * and the free list hold, only the survivor may still be followed by a free block, it
   * covers the inserted block and ends where that block ended, no allocated block
   * changed, and no block became allocated.
   */
  ghost predicate AfterLeftMerge(s: Heap, j: int, r: Heap, c: int)
    requires 0 <= j < |s.free| && s.free[j] in s.hdr
  {
    && WellFormed(r) && 0 <= c < |r.free| && AdjacentOnlyFrom(r.hdr, r.free[c])
    && LinksAt(r, c) && (c + 1 < |r.free| ==> r.free[c + 1] in r.hdr)
    && r.free[c] <= s.free[j] && s.free[j] + s.hdr[s.free[j]].bSize == r.free[c] + r.hdr[r.free[c]].bSize
    && (forall x | x in s.hdr && s.hdr[x].isAllocated :: x in r.hdr && r.hdr[x] == s.hdr[x])
    && (forall x | x in r.hdr && r.hdr[x].isAllocated :: x in s.hdr && s.hdr[x].isAllocated)
    && r.hdr.Keys <= s.hdr.Keys
  }

  /** When the list predecessor ends at the block, it absorbs the block. */
  lemma MergeLeftAbsorbs(s: Heap, j: int)
    requires WellFormed(s) && 0 < j < |s.free| && AdjacentOnlyAt(s.hdr, s.free[j])
    requires s.free[j - 1] + s.hdr[s.free[j - 1]].bSize == s.free[j]
    ensures var r := Heap(s.size, Absorb(s.hdr, s.free[j - 1], s.free[j]), s.head, RemoveAt(s.free, j));
      AfterLeftMerge(s, j, r, j - 1) && MergedAs(s, j - 1, r)
  {
    var F := s.free;
    var r := Heap(s.size, Absorb(s.hdr, F[j - 1], F[j]), s.head, RemoveAt(F, j));
    AbsorbIs(s, j - 1);
    MergedWellFormed(s, j - 1, r);
    AbsorbLeftAdjacency(s.hdr, r.hdr, s.size, F[j - 1], F[j]);
    assert r.free[j - 1] == F[j - 1];
    assert LinksAt(r, j - 1);
  }

  /** When the list predecessor does not end at the block, no free block does, and nothing changes. */
  lemma MergeLeftKeeps(s: Heap, j: int)
    requires WellFormed(s) && 0 <= j < |s.free| && AdjacentOnlyAt(s.hdr, s.free[j])
    requires !(0 < j && s.free[j - 1] + s.hdr[s.free[j - 1]].bSize == s.free[j])
    ensures AfterLeftMerge(s, j, s, j)
  {
    NoLeftNeighbour(s, j);
    assert LinksAt(s, j);
  }

  /**
   * The left merge of sfree: when the block's list predecessor ends at it, the
   * predecessor absorbs it, and otherwise nothing changes.
   */
  lemma MergeLeftCorrect(s: Heap, j: int)
    requires WellFormed(s) && 0 <= j < |s.free| && AdjacentOnlyAt(s.hdr, s.free[j])
    ensures LinksAt(s, j) && (0 < j ==> s.free[j - 1] in s.hdr)
    ensures var r := MergeLeft(s, j); var c := if MergesLeft(s, j) then j - 1 else j;
      && AfterLeftMerge(s, j, r, c)
      && (MergesLeft(s, j) ==> 0 < j && MergedAs(s, j - 1, r))
      && (!MergesLeft(s, j) ==> r == s)
  {
    assert LinksAt(s, j);
    if MergesLeft(s, j) {
      MergeLeftAbsorbs(s, j);
    } else {
      MergeLeftKeeps(s, j);
    }
  }

  /**
   * The right merge of sfree: when the surviving block ends at its list successor, it
   * absorbs the successor, and otherwise nothing changes. Either way the invariant holds
   * again: no two free blocks are adjacent.
   */
  lemma MergeRightCorrect(s: Heap, i: int)
    requires WellFormed(s) && 0 <= i < |s.free| && AdjacentOnlyFrom(s.hdr, s.free[i])
    ensures LinksAt(s, i) && (i + 1 < |s.free| ==> s.free[i + 1] in s.hdr)
    ensures var r := MergeRight(s, i);
      && Inv(r)
      && (MergesRight(s, i) ==> i + 1 < |s.free| && MergedAs(s, i, r))
      && (!MergesRight(s, i) ==> r == s)
      && s.free[i] in r.hdr && !r.hdr[s.free[i]].isAllocated && r.hdr[s.free[i]].bSize >= s.hdr[s.free[i]].bSize
      && (forall x | x in s.hdr && s.hdr[x].isAllocated :: x in r.hdr && r.hdr[x] == s.hdr[x])
      && (forall x | x in r.hdr && r.hdr[x].isAllocated :: x in s.hdr && s.hdr[x].isAllocated)
      && r.hdr.Keys <= s.hdr.Keys
  {
    var F := s.free;
    assert LinksAt(s, i);
    var r := MergeRight(s, i);
    if MergesRight(s, i) {
      AbsorbIs(s, i);
      MergedWellFormed(s, i, r);
      AbsorbRightAdjacency(s.hdr, r.hdr, s.size, F[i], F[i + 1]);
      assert BlockOk(s.hdr, s.size, F[i + 1]);
    } else {
      NoRightNeighbour(s, i);
    }
  }

  /**
   * sfree up to the left merge (smalloc.c:252-297): the block is marked free, inserted
   * where the scan stops and merged into its list predecessor if that ends at it. The
   * result is the state and the surviving block's list position (`block_header`).
   */
  function FreeLeft(s: Heap, b: int): (r: (Heap, int))
    requires Inv(s) && b in s.hdr && s.hdr[b].isAllocated
    ensures LeftStageOk(s, b, r.0, r.1)
  {
    var j := InsertPos(s.free, b);
    InsertFreeCorrect(s, b, j);
    MergeLeftCorrect(InsertFree(s, b, j), j);
    LeftStageFrom(s, b, j, InsertFree(s, b, j), MergeLeft(InsertFree(s, b, j), j),
      if MergesLeft(InsertFree(s, b, j), j) then j - 1 else j);
    (MergeLeft(InsertFree(s, b, j), j), if MergesLeft(InsertFree(s, b, j), j) then j - 1 else j)
  }

  /**
   * The state between the two merges of freeing the block at b, with c the survivor's list
   * position: the tiling and the free list hold, only the survivor may be followed by a
   * free block, the survivor holds b's bytes, no block appeared, every other allocated
   * block keeps its header, and only blocks allocated before, other than b, are allocated.
   */
  ghost predicate LeftStageOk(s: Heap, b: int, r: Heap, c: int)
    requires b in s.hdr
  {
    && WellFormed(r) && 0 <= c < |r.free| && AdjacentOnlyFrom(r.hdr, r.free[c])
    && LinksAt(r, c) && (c + 1 < |r.free| ==> r.free[c + 1] in r.hdr)
    && r.free[c] <= b && b + s.hdr[b].bSize == r.free[c] + r.hdr[r.free[c]].bSize
    && r.hdr.Keys <= s.hdr.Keys
    && (forall x | x in s.hdr && x != b && s.hdr[x].isAllocated :: x in r.hdr && r.hdr[x] == s.hdr[x])
    && (forall x | x in r.hdr && r.hdr[x].isAllocated :: x != b && x in s.hdr && s.hdr[x].isAllocated)
  }

  /** Insertion followed by the left merge reaches the state LeftStageOk describes. */
  lemma LeftStageFrom(s: Heap, b: int, j: int, s1: Heap, s2: Heap, c: int)
    requires Linked(s) && b in s.hdr && 0 <= j <= |s.free|
    requires InsertedAs(s, b, j, s1) && j < |s1.free| && s1.free[j] == b
    requires AfterLeftMerge(s1, j, s2, c)
    ensures LeftStageOk(s, b, s2, c)
  {
    forall x | x in s.hdr && x != b && s.hdr[x].isAllocated ensures x in s2.hdr && s2.hdr[x] == s.hdr[x] {
      InsertKeepsAllocated(s, b, j, s1, x);
    }
    forall x | x in s2.hdr && s2.hdr[x].isAllocated ensures x != b && x in s.hdr && s.hdr[x].isAllocated {
      assert x in s1.hdr && s1.hdr[x].isAllocated;
    }
  }

  /**
   * sfree (smalloc.c:221-312): nothing for NULL; otherwise the left stage, then the merge
   * of the survivor with its list successor if it ends there. It keeps the invariant and
   * the region size, and frees the block as FreedAs describes.
   */
  function Free(s: Heap, ptr: Option<int>): (r: Heap)
    requires Inv(s) && CanFree(s, ptr)
    ensures Inv(r) && r.size == s.size
    ensures ptr.None? ==> r == s
    ensures ptr.Some? ==> FreedAs(s, ptr.value - HeaderSize, r)
  {
    if ptr.None? then s
    else
      var b := ptr.value - HeaderSize;
      var (s2, c) := FreeLeft(s, b);
      MergeRightCorrect(s2, c);
      FreedFrom(s, b, s2, c, MergeRight(s2, c));
      MergeRight(s2, c)
  }

  /**
   * What freeing the block at b leaves, beyond the invariant: no new block, every other
   * allocated block with its header unchanged, no block newly allocated and b not
   * allocated, and a free block holding b's bytes.
   */
  ghost predicate FreedAs(s: Heap, b: int, r: Heap)
    requires b in s.hdr
  {
    && r.hdr.Keys <= s.hdr.Keys
    && (forall x | x in s.hdr && x != b && s.hdr[x].isAllocated :: x in r.hdr && r.hdr[x] == s.hdr[x])
    && (forall x | x in r.hdr && r.hdr[x].isAllocated :: x != b && x in s.hdr && s.hdr[x].isAllocated)
    && exists f | f in r.hdr && !r.hdr[f].isAllocated :: f <= b && b + s.hdr[b].bSize <= f + r.hdr[f].bSize
  }

  /** The right merge after the left stage frees the block as FreedAs describes. */
  lemma FreedFrom(s: Heap, b: int, s2: Heap, c: int, r: Heap)
    requires b in s.hdr && LeftStageOk(s, b, s2, c)
    requires s2.free[c] in r.hdr && !r.hdr[s2.free[c]].isAllocated && r.hdr[s2.free[c]].bSize >= s2.hdr[s2.free[c]].bSize
    requires forall x | x in s2.hdr && s2.hdr[x].isAllocated :: x in r.hdr && r.hdr[x] == s2.hdr[x]
    requires forall x | x in r.hdr && r.hdr[x].isAllocated :: x in s2.hdr && s2.hdr[x].isAllocated
    requires r.hdr.Keys <= s2.hdr.Keys
    ensures FreedAs(s, b, r)
  {
    var f := s2.free[c];
    assert f in r.hdr && !r.hdr[f].isAllocated && f <= b && b + s.hdr[b].bSize <= f + r.hdr[f].bSize;
  }

  /** An insertion changes no allocated header other than the inserted block's. */
  lemma InsertKeepsAllocated(s: Heap, b: int, j: int, r: Heap, x: int)
    requires Linked(s) && b in s.hdr && 0 <= j <= |s.free| && InsertedAs(s, b, j, r)
    requires x in s.hdr && x != b && s.hdr[x].isAllocated
    ensures x in r.hdr && r.hdr[x] == s.hdr[x]
  {
    assert Some(x) != At(s.free, j - 1) && Some(x) != At(s.free, j);
  }
}
