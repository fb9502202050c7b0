/** Constants, the in-band block header and the size arithmetic of smalloc. */
module SmallocTypes {

  /** The page size used to round the region (PAGESIZE). */
  const PageSize := 4096
  /** The smallest remainder that smalloc splits off as a free block of its own (MIN_BLOCK_SIZE). */
  const MinBlockSize := 32
  /** sizeof(struct header) on LP64: two 4-byte ints and two 8-byte pointers. */
  const HeaderSize := 24
  /** The largest value of a C int. */
  const IntMax := 0x7FFF_FFFF

  /** The largest region request for which `size_of_region + PAGESIZE - 1` does not overflow. */
  const MaxRegionRequest := IntMax - (PageSize - 1)
  /** The largest payload request for which the required block size still fits in an int. */
  const MaxPayload := IntMax - 31

  datatype Option<T> = None | Some(value: T)

  /**
   * The header at the start of every block: the size of the whole block (header,
   * payload and padding), whether it is allocated, and the free-list links, which are
   * byte offsets into the region (NULL is None). The links mean something only while
   * the block is free.
   */
  datatype Header = Header(bSize: int, isAllocated: bool, nextFree: Option<int>, prevFree: Option<int>)

  /** The status record smalloc fills in: success flag, payload offset and hop count. */
  datatype MallocStatus = MallocStatus(success: bool, payloadOffset: int, hops: int)

  /** What smalloc reports on either failure path. */
  const Failed := MallocStatus(false, -1, -1)

  /** The region size my_init computes: one page for small requests, else whole pages. */
  function HeapSizeFor(sizeOfRegion: int): (r: int)
    requires sizeOfRegion <= MaxRegionRequest
    ensures r >= PageSize && r % PageSize == 0 && r >= sizeOfRegion
    ensures r == PageSize || r - PageSize < sizeOfRegion
    ensures r <= IntMax
  {
    if sizeOfRegion <= PageSize then PageSize
    else PageSize * ((sizeOfRegion + PageSize - 1) / PageSize)
  }

  /**
   * `(n + 7) & ~7` on a non-negative int: clearing the three low bits of n + 7,
   * which is n rounded up to a multiple of 8.
   */
  function AlignUp8(n: int): (r: int)
    requires 0 <= n <= IntMax - 7
    ensures r % 8 == 0 && n <= r < n + 8
  {
    (n + 7) - (n + 7) % 8
  }

  /** The block size smalloc looks for: the header plus the payload rounded up to 8. */
  function RequiredBlockSize(sizeOfPayload: int): (r: int)
    requires 0 < sizeOfPayload <= MaxPayload
    ensures r % 8 == 0 && r >= MinBlockSize && r <= IntMax
    ensures HeaderSize + sizeOfPayload <= r < HeaderSize + sizeOfPayload + 8
  {
    HeaderSize + AlignUp8(sizeOfPayload)
  }
}
