/**
 * A whole-program property: freeing the block smalloc has just returned restores
 * exactly the state before the allocation, from any state the invariant admits.
 */
module RoundTrip {
  import opened SmallocTypes
  import opened HeapModel
  import opened Allocate
  import opened Release

  /**
   * From any state that satisfies the invariant, smalloc followed by sfree of the
   * returned pointer (NULL included) gives back the state before smalloc: the block
   * split off is merged back, or the block taken whole is linked in where it was.
   */
  lemma FreeUndoesMalloc(s: Heap, sizeOfPayload: int)
    requires Inv(s) && sizeOfPayload <= MaxPayload
    ensures var (s1, ptr, _) := Malloc(s, sizeOfPayload);
      && Inv(s1) && CanFree(s1, ptr)
      && Free(s1, ptr) == s
  {
    MallocKeepsInv(s, sizeOfPayload);
    var (s1, ptr, status) := Malloc(s, sizeOfPayload);
    if ptr.Some? {
      var req := RequiredBlockSize(sizeOfPayload);
      var k := FirstFit(s.hdr, s.free, req).value;
      if s.hdr[s.free[k]].bSize - req >= MinBlockSize {
        SplitFreeRestores(s, k, req);
      } else {
        ConsumeFreeRestores(s, k);
      }
    }
  }

  /**
   * After my_init, smalloc of any request that fits takes the single free block with
   * no hops and returns the payload right after its header, and sfree of that pointer
   * restores the initial state.
   */
  lemma MallocFreeRestores(n: int, sizeOfPayload: int)
    requires 0 < n <= IntMax && n % PageSize == 0
    requires 0 < sizeOfPayload <= MaxPayload && RequiredBlockSize(sizeOfPayload) <= n
    ensures var (s1, ptr, status) := Malloc(Initial(n), sizeOfPayload);
      && ptr == Some(HeaderSize) && status == MallocStatus(true, HeaderSize, 0)
      && Inv(s1) && CanFree(s1, ptr)
      && Free(s1, ptr) == Initial(n)
  {
    var s := Initial(n);
    FirstFitIsUnique(s.hdr, s.free, RequiredBlockSize(sizeOfPayload), 0);
    FreeUndoesMalloc(s, sizeOfPayload);
  }

  /** The sfree scan stops at the one position with only smaller nodes before it. */
  lemma InsertPosIs(free: seq<int>, b: int, j: int)
    requires 0 <= j <= |free|
    requires forall i | 0 <= i < j :: free[i] < b
    requires j < |free| ==> free[j] >= b
    ensures InsertPos(free, b) == j
  {
  }

  /** Freeing a block taken whole at list position k links it in at k again, and nothing merges. */
  lemma ConsumeFreeRestores(s: Heap, k: int)
    requires Inv(s) && 0 <= k < |s.free|
    ensures s.free[k] in s.hdr
    ensures var s1 := ConsumeBlock(s, k);
      && Inv(s1) && CanFree(s1, Some(s.free[k] + HeaderSize))
      && Free(s1, Some(s.free[k] + HeaderSize)) == s
  {
    ConsumeBlockCorrect(s, k);
    ConsumedFreed(s, k, ConsumeBlock(s, k));
  }

  /** The state ConsumedAs describes for the block at list position k, freed again, is the state before. */
  lemma ConsumedFreed(s: Heap, k: int, s1: Heap)
    requires Inv(s) && 0 <= k < |s.free| && Inv(s1) && ConsumedAs(s, k, s1)
    ensures CanFree(s1, Some(s.free[k] + HeaderSize)) && Free(s1, Some(s.free[k] + HeaderSize)) == s
  {
    var o := s.free[k];
    ConsumedInsertPos(s, k, s1);
    FreeIs(s1, o);
    ConsumeInsertRestores(s, k, s1, InsertFree(s1, o, k));
    NothingMerges(s, k);
  }

  /** The sfree scan over the list ConsumedAs leaves stops where the block was taken out. */
  lemma ConsumedInsertPos(s: Heap, k: int, s1: Heap)
    requires Increasing(s.free) && 0 <= k < |s.free| && s.free[k] in s.hdr && ConsumedAs(s, k, s1)
    ensures InsertPos(s1.free, s.free[k]) == k
  {
    var F := s.free;
    assert forall i | 0 <= i < k :: s1.free[i] == F[i] < F[k];
    assert k < |s1.free| ==> s1.free[k] == F[k + 1] > F[k];
    InsertPosIs(s1.free, F[k], k);
  }

  /** In a state that keeps the invariant, the free block at list position k merges with neither list neighbour. */
  lemma NothingMerges(s: Heap, k: int)
    requires Inv(s) && 0 <= k < |s.free|
    ensures LinksAt(s, k) && (0 < k ==> s.free[k - 1] in s.hdr) && (k + 1 < |s.free| ==> s.free[k + 1] in s.hdr)
    ensures !MergesLeft(s, k) && !MergesRight(s, k) && MergeRight(s, k) == s
  {
    assert LinksAt(s, k);
  }

  /**
   * sfree of an allocated block, unfolded: the block is inserted where the scan stops,
   * and when it does not merge into its list predecessor, the right merge finishes.
   */
  lemma FreeIs(s: Heap, b: int)
    requires Inv(s) && b in s.hdr && s.hdr[b].isAllocated
    ensures var j := InsertPos(s.free, b); 0 < j ==> s.free[j - 1] in s.hdr
    ensures var j := InsertPos(s.free, b); var i1 := InsertFree(s, b, j);
      && WellFormed(i1) && InsertedAs(s, b, j, i1) && j < |i1.free| && i1.free[j] == b
      && LinksAt(i1, j) && (0 < j ==> i1.free[j - 1] in i1.hdr) && (j + 1 < |i1.free| ==> i1.free[j + 1] in i1.hdr)
    ensures var j := InsertPos(s.free, b); var i1 := InsertFree(s, b, j);
      !MergesLeft(i1, j) ==> Free(s, Some(b + HeaderSize)) == MergeRight(i1, j)
  {
    var j := InsertPos(s.free, b);
    InsertFreeCorrect(s, b, j);
    var i1 := InsertFree(s, b, j);
    assert LinksAt(i1, j);
    if !MergesLeft(i1, j) {
      assert FreeLeft(s, b) == (i1, j);
    }
  }

  /** Linking a block taken whole back in at its old list position restores the state before. */
  lemma ConsumeInsertRestores(s: Heap, k: int, s1: Heap, r: Heap)
    requires Linked(s) && 0 <= k < |s.free| && ConsumedAs(s, k, s1)
    requires InsertedAs(s1, s.free[k], k, r)
    ensures r == s
  {
    var F := s.free;
    var o := F[k];
    var F1 := s1.free;
    assert LinksAt(s, k);
    assert At(F1, k) == At(F, k + 1) && At(F1, k - 1) == At(F, k - 1);
    forall x | x in s.hdr ensures r.hdr[x] == s.hdr[x] {
      if x == o {
      } else if Some(x) == At(F, k - 1) {
        assert LinksAt(s, k - 1);
      } else if Some(x) == At(F, k + 1) {
        assert LinksAt(s, k + 1);
      }
    }
    assert r.hdr == s.hdr;
    assert r.free == F;
  }

  /** Freeing a split-off block at list position k links it in at k and merges the remainder back. */
  lemma SplitFreeRestores(s: Heap, k: int, req: int)
    requires Inv(s) && 0 <= k < |s.free|
    requires req >= MinBlockSize && req % 8 == 0 && SizeOf(s.hdr, s.free[k]) - req >= MinBlockSize
    ensures s.free[k] in s.hdr
    ensures var s1 := SplitBlock(s, k, req);
      && Inv(s1) && CanFree(s1, Some(s.free[k] + HeaderSize))
      && Free(s1, Some(s.free[k] + HeaderSize)) == s
  {
    SplitBlockCorrect(s, k, req);
    CarveFresh(s.hdr, s.size, s.free[k], req);
    SplitFreed(s, k, req, SplitBlock(s, k, req));
  }

  /** The state SplitAs describes for the block at list position k, freed again, is the state before. */
  lemma SplitFreed(s: Heap, k: int, req: int, s1: Heap)
    requires Inv(s) && 0 <= k < |s.free| && 0 < req && s.free[k] + req !in s.hdr
    requires Inv(s1) && SplitAs(s, k, req, s1)
    ensures CanFree(s1, Some(s.free[k] + HeaderSize)) && Free(s1, Some(s.free[k] + HeaderSize)) == s
  {
    var o := s.free[k];
    SplitInsertPos(s, k, req, s1);
    FreeIs(s1, o);
    SplitRejoins(s, k, req, s1, InsertFree(s1, o, k));
  }

  /** The sfree scan over the list SplitAs leaves stops at the split block's old position. */
  lemma SplitInsertPos(s: Heap, k: int, req: int, s1: Heap)
    requires Increasing(s.free) && 0 <= k < |s.free| && s.free[k] in s.hdr && 0 < req && SplitAs(s, k, req, s1)
    ensures InsertPos(s1.free, s.free[k]) == k
  {
    var F := s.free;
    assert forall i | 0 <= i < k :: s1.free[i] == F[i] < F[k];
    assert s1.free[k] == F[k] + req > F[k];
    InsertPosIs(s1.free, F[k], k);
  }

  /**
   * After the split block is linked in again at k, it does not merge into its list
   * predecessor but does merge with the split-off remainder after it, and that merge
   * gives back the state before the split.
   */
  lemma SplitRejoins(s: Heap, k: int, req: int, s1: Heap, i1: Heap)
    requires Linked(s) && NoAdjacentFree(s.hdr) && 0 <= k < |s.free| && 0 < req && s.free[k] + req !in s.hdr
    requires SplitAs(s, k, req, s1) && Increasing(s1.free)
    requires InsertedAs(s1, s.free[k], k, i1) && Linked(i1)
    ensures LinksAt(i1, k) && (0 < k ==> i1.free[k - 1] in i1.hdr) && (k + 1 < |i1.free| ==> i1.free[k + 1] in i1.hdr)
    ensures !MergesLeft(i1, k) && MergeRight(i1, k) == s
  {
    var F := s.free;
    assert LinksAt(i1, k);
    assert i1.free[k] == F[k] && i1.free[k + 1] == s1.free[k];
    if 0 < k {
      assert LinksAt(s, k - 1);
      assert i1.free[k - 1] == F[k - 1];
    }
    assert MergesRight(i1, k);
    AbsorbIs(i1, k);
    SplitInsertMergeRestores(s, k, req, s1, i1, MergeRight(i1, k));
  }

  /**
   * Splitting the block at list position k, linking its first part back in at k and
   * merging the remainder into it restores the state before the split.
   */
  lemma SplitInsertMergeRestores(s: Heap, k: int, req: int, s1: Heap, i1: Heap, r: Heap)
    requires Linked(s) && 0 <= k < |s.free| && s.free[k] + req !in s.hdr
    requires SplitAs(s, k, req, s1) && Increasing(s1.free)
    requires InsertedAs(s1, s.free[k], k, i1)
    requires i1.free[k] in i1.hdr && i1.free[k + 1] in i1.hdr && MergedAs(i1, k, r)
    ensures r == s
  {
    var F := s.free;
    assert i1.free[k] == F[k] && i1.free[k + 1] == s1.free[k];
    forall x | x in s.hdr ensures x in r.hdr && r.hdr[x] == s.hdr[x] {
      SplitHeaderRestored(s, k, req, s1, i1, r, x);
    }
    assert r.hdr == s.hdr;
    assert r.free == F;
  }

  /** Each header comes back through split, insertion and merge as it was. */
  lemma SplitHeaderRestored(s: Heap, k: int, req: int, s1: Heap, i1: Heap, r: Heap, x: int)
    requires Linked(s) && 0 <= k < |s.free| && s.free[k] + req !in s.hdr
    requires SplitAs(s, k, req, s1) && Increasing(s1.free)
    requires InsertedAs(s1, s.free[k], k, i1)
    requires i1.free[k] == s.free[k] && i1.free[k + 1] == s1.free[k] && i1.free[k + 1] in i1.hdr && MergedAs(i1, k, r)
    requires x in s.hdr
    ensures x in r.hdr && r.hdr[x] == s.hdr[x]
  {
    var F := s.free;
    var o := F[k];
    var nf := o + req;
    var F1 := s1.free;
    assert At(i1.free, k + 2) == At(F, k + 1) && At(F1, k) == Some(nf) && At(F1, k - 1) == At(F, k - 1);
    if x == o {
      assert LinksAt(s, k);
    } else if Some(x) == At(F, k - 1) {
      assert LinksAt(s, k - 1);
      assert F1[k - 1] == x < nf;
    } else if Some(x) == At(F, k + 1) {
      assert LinksAt(s, k + 1);
      assert nf < F1[k + 1] == x;
    } else {
      assert x != nf;
    }
  }
}
