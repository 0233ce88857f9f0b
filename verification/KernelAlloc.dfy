/** The kernel's allocation functions (src/kernel/src/klibc/alloc.c) on top of the heap. */
module KernelAlloc {
  import opened Common
  import opened HeapMemory
  import opened HeapBins
  import opened HeapLayout
  import opened Heap

  /** A null pointer, a pointer, or the heap asking for `expand`. */
  datatype Pointer = Null | Block(addr: int) | Expanding

  function ToPointer(r: AllocResult): Pointer {
    match r
    case NoFit => Null
    case Allocated(b) => Block(b)
    case NeedsExpand(_) => Expanding
  }

  /** The blocks handed out. */
  ghost predicate IsBlock(tags: Tags, p: int) {
    p - BLOCK_AT in tags && !tags[p - BLOCK_AT].hole
  }

  ghost function Blocks(tags: Tags): set<int> {
    set x | x in tags && !tags[x].hole :: x + BLOCK_AT
  }

  /** No hole has room for `size` bytes. */
  ghost predicate NoRoom(tags: Tags, size: int) {
    forall x :: x in tags && tags[x].hole ==> tags[x].size < size
  }

  /** The last chunk has become so small that the heap asks for `expand`. */
  ghost predicate WildernessShort(h: Heap)
    reads h, h.ram
  {
    h.Sound() && h.end in h.pred && h.pred[h.end] in h.tags && h.tags[h.pred[h.end]].size < 0x2000
  }

  /** The hole at `x` is a smallest one with room for `size` bytes. */
  ghost predicate BestHole(tags: Tags, x: int, size: int) {
    && x in tags && tags[x].hole && tags[x].size >= size
    && forall y :: y in tags && tags[y].hole && tags[y].size >= size ==> tags[x].size <= tags[y].size
  }

  /** `size` bytes were taken from a best hole of `tags`, and that leaves the last chunk too small. */
  ghost predicate TakenShort(h: Heap, tags: Tags, size: int)
    reads h, h.ram
  {
    WildernessShort(h) && exists x :: BestHole(tags, x, size) && Serves(tags, h.tags, x, size)
  }

  /** `heap_free` may look at the chunk after this block. */
  ghost predicate Freeable(h: Heap, p: int)
    reads h
  {
    IsBlock(h.tags, p) && (p - BLOCK_AT == h.start || End(h.tags, p - BLOCK_AT) != h.end)
  }

  /** Every block of `tags` but the one at `p` has the same size and bytes. */
  ghost predicate KeepsBlocks(m: seq<byte>, m': seq<byte>, tags: Tags, tags': Tags, p: int) {
    && |m'| == |m|
    && forall x :: x in tags && !tags[x].hole && x != p - BLOCK_AT ==>
         x in tags' && tags'[x] == tags[x] && Agree(m, m', x, End(tags, x))
  }

  /** The growing case of `krealloc`: allocate, copy, free. */
  method Grow(h: Heap, p: int, oldSize: int, newSize: int) returns (r: Pointer)
    requires h.Valid() && IsBlock(h.tags, p) && oldSize == h.tags[p - BLOCK_AT].size && oldSize < newSize
    requires Freeable(h, p) || NoRoom(h.tags, newSize)
    modifies h, h.ram
    ensures r != Expanding ==> h.Valid() && KeepsBlocks(old(h.ram.bytes), h.ram.bytes, old(h.tags), h.tags, p)
    ensures r == Expanding ==> TakenShort(h, old(h.tags), newSize)
    ensures r == Expanding ==> KeepsBlocks(old(h.ram.bytes), h.ram.bytes, old(h.tags), h.tags, NULL)
    ensures r == Null ==> h.tags == old(h.tags) && h.ram.bytes == old(h.ram.bytes)
    ensures r == Null <==> NoRoom(old(h.tags), newSize)
    ensures r.Block? ==> r.addr !in Blocks(old(h.tags)) && Blocks(h.tags) == Blocks(old(h.tags)) - {p} + {r.addr}
    ensures r.Block? ==>
      && IsBlock(h.tags, r.addr) && newSize <= h.tags[r.addr - BLOCK_AT].size <= newSize + 24
      && 0 <= r.addr && r.addr + oldSize <= |h.ram.bytes| && 0 <= p && p + oldSize <= |old(h.ram.bytes)|
      && h.ram.bytes[r.addr..r.addr + oldSize] == old(h.ram.bytes)[p..p + oldSize]
  {
    hide Heap.Valid, Heap.Sound, KeepsBlocks, Blocks, NoRoom;
    ghost var m0, t0 := h.ram.bytes, h.tags;
    BlockPlace(h, p);
    NullNoBlockIn(h);
    r := Malloc(h, newSize);
    KeepsBlocksSelf(m0, t0, p);
    if r.Block? {
      ghost var m1, t1 := h.ram.bytes, h.tags;
      BlockListed(t0, p);
      BlockListed(t0, r.addr);
      BlockListed(t0, NULL);
      KeptElsewhere(m0, m1, t0, t1, p, oldSize);
      CopyAndFree(h, p, r.addr, oldSize);
      KeepsBlocksTwice(m0, m1, h.ram.bytes, t0, t1, h.tags, p, r.addr);
    }
  }

  /** A block of a sound heap lies in memory, and not at the very start. */
  lemma BlockPlace(h: Heap, p: int)
    requires h.Valid() && IsBlock(h.tags, p)
    ensures BLOCK_AT < p && 0 <= h.tags[p - BLOCK_AT].size && p + h.tags[p - BLOCK_AT].size <= |h.ram.bytes|
  {
    hide Word, BinsLinked, Tiles, TagsOk, BinsOk, BinIndex, UsedBytes;
    HeapFacts(h.ram.bytes, h.tags, h.pred, h.start, h.end, h.heads, h.bins, h.binOf, p - BLOCK_AT);
  }

  lemma NullNoBlockIn(h: Heap)
    requires h.Valid()
    ensures NULL !in Blocks(h.tags)
  {
    NullNoBlock(h.tags, h.pred, h.start, h.end);
  }

  /** An allocation keeps the block at `p` and all others. */
  lemma KeptElsewhere(m: seq<byte>, m': seq<byte>, tags: Tags, tags': Tags, p: int, n: int)
    requires KeepsBlocks(m, m', tags, tags', NULL) && !IsBlock(tags, NULL) && IsBlock(tags, p) && n == tags[p - BLOCK_AT].size
    requires BLOCK_AT < p && 0 <= n && p + n <= |m|
    ensures KeepsBlocks(m, m', tags, tags', p) && p - BLOCK_AT in tags' && tags'[p - BLOCK_AT] == tags[p - BLOCK_AT]
    ensures |m'| == |m| && m'[p..p + n] == m[p..p + n]
  {
    assert Agree(m, m', p - BLOCK_AT, End(tags, p - BLOCK_AT));
  }

  /** Copies the old block into the new one and frees the old one. */
  method CopyAndFree(h: Heap, p: int, q: int, n: int)
    requires h.Valid() && Freeable(h, p) && IsBlock(h.tags, q) && p != q
    requires n == h.tags[p - BLOCK_AT].size && n <= h.tags[q - BLOCK_AT].size
    modifies h, h.ram
    ensures h.Valid() && IsBlock(h.tags, q) && h.tags[q - BLOCK_AT] == old(h.tags)[q - BLOCK_AT]
    ensures 0 <= p && 0 <= q && p + n <= |old(h.ram.bytes)| && q + n <= |h.ram.bytes| == |old(h.ram.bytes)|
    ensures h.ram.bytes[q..q + n] == old(h.ram.bytes)[p..p + n] && Blocks(h.tags) == Blocks(old(h.tags)) - {p}
    ensures forall z :: z in old(h.tags) && !old(h.tags)[z].hole && z != p - BLOCK_AT && z != q - BLOCK_AT ==>
      z in h.tags && h.tags[z] == old(h.tags)[z] && Agree(old(h.ram.bytes), h.ram.bytes, z, End(old(h.tags), z))
  {
    hide Word, BinsLinked, Tiles, TagsOk, BinsOk, BinIndex, UsedBytes, KeepsUsed, KeepsOthers, Coalesced, Replaced, Blocks;
    ghost var m1, t1, x, y := h.ram.bytes, h.tags, p - BLOCK_AT, q - BLOCK_AT;
    HeapFacts(m1, t1, h.pred, h.start, h.end, h.heads, h.bins, h.binOf, y);
    HeapFacts(m1, t1, h.pred, h.start, h.end, h.heads, h.bins, h.binOf, x);
    BlockRanges(t1, h.start, h.end, x, y);
    h.ram.Copy(q, p, n);
    ghost var m2 := h.ram.bytes;
    CopiedInBlock(m1, m2, t1, y, q, m1[p..p + n]);
    ClientWrite(m1, m2, t1, h.pred, h.start, h.end, y, h.heads, h.bins, h.binOf);
    h.Free(p);
    FreedBlockSet(t1, old(h.pred), h.start, h.end, x);
    FreedKeepsBlock(m2, h.ram.bytes, t1, old(h.pred), h.start, h.end, x, y);
    forall z | z in t1 && !t1[z].hole && z != x && z != y
      ensures z in h.tags && h.tags[z] == t1[z] && Agree(m1, h.ram.bytes, z, End(t1, z))
    {
      OtherKept(m1, m2, t1, y, z);
      FreedKeepsBlock(m2, h.ram.bytes, t1, old(h.pred), h.start, h.end, x, z);
    }
  }

  /** Freeing `x` keeps the tag and the bytes of every other block. */
  lemma FreedKeepsBlock(m: seq<byte>, m': seq<byte>, tags: Tags, pred: map<int, int>, start: int, end: int, x: int, z: int)
    requires Tiles(tags, pred, start, end) && x in tags && !tags[x].hole && (x == start || End(tags, x) != end)
    requires KeepsUsed(m, m', Freed(tags, x)) && z in tags && !tags[z].hole && z != x
    ensures var t := Coalesced(tags, pred, start, end, x); z in t && t[z] == tags[z]
    ensures Agree(m, m', z, End(tags, z))
  {
    assert z in Freed(tags, x) && Freed(tags, x)[z] == tags[z] && End(Freed(tags, x), z) == End(tags, z);
    if x != start {
      assert Preceded(tags, pred, x) && Continues(tags, end, x);
    }
  }

  lemma OtherKept(m: seq<byte>, m': seq<byte>, tags: Tags, y: int, z: int)
    requires KeepsOthers(m, m', tags, y) && z in tags && z != y
    ensures Agree(m, m', z, End(tags, z))
  {
  }

  lemma KeepsBlocksSelf(m: seq<byte>, tags: Tags, p: int)
    ensures KeepsBlocks(m, m, tags, tags, p)
  {
  }

  lemma ClaimedKeepsBlocks(m: seq<byte>, m': seq<byte>, tags: Tags, start: int, end: int, y: int, size: int, p: int)
    requires Extents(tags, start, end) && y in tags && tags[y].hole && 0 <= size <= tags[y].size && KeepsUsed(m, m', tags)
    ensures KeepsBlocks(m, m', tags, Claimed(tags, y, size), p)
  {
  }

  lemma KeepsBlocksTwice(m0: seq<byte>, m1: seq<byte>, m2: seq<byte>, t0: Tags, t1: Tags, t2: Tags, p: int, q: int)
    requires KeepsBlocks(m0, m1, t0, t1, p) && |m2| == |m1|
    requires q - BLOCK_AT in t0 ==> t0[q - BLOCK_AT].hole
    requires forall z :: z in t1 && !t1[z].hole && z != p - BLOCK_AT && z != q - BLOCK_AT ==>
      z in t2 && t2[z] == t1[z] && Agree(m1, m2, z, End(t1, z))
    ensures KeepsBlocks(m0, m2, t0, t2, p)
  {
  }

  lemma ClaimedFacts(tags: Tags, start: int, end: int, y: int, size: int, x: int)
    requires Extents(tags, start, end) && y in tags && tags[y].hole && 0 <= size <= tags[y].size
    ensures var t := Claimed(tags, y, size); y in t && !t[y].hole && size <= t[y].size <= size + 24
    ensures x in tags && !tags[x].hole ==> x != y && x in Claimed(tags, y, size) && Claimed(tags, y, size)[x] == tags[x]
  {
  }

  lemma BlockRanges(tags: Tags, start: int, end: int, x: int, y: int)
    requires Extents(tags, start, end) && x in tags && y in tags && x != y
    ensures x + BLOCK_AT + tags[x].size <= y || y + BLOCK_AT + tags[y].size <= x
  {
  }

  lemma CopiedInBlock(m: seq<byte>, m': seq<byte>, tags: Tags, y: int, dst: int, b: seq<byte>)
    requires y in tags && !tags[y].hole && dst == y + BLOCK_AT && |b| <= tags[y].size && 0 <= dst && dst + |b| <= |m|
    requires m' == Replaced(m, dst, b)
    ensures |m'| == |m| && m'[dst..dst + |b|] == b
    ensures forall k :: 0 <= k < |m| && !InBlock(tags, y, k) ==> m'[k] == m[k]
  {
  }

  /** `krealloc`: whatever happens, every other block keeps its size and bytes; if a block comes back it is large enough and
      starts with the old block's bytes, as many as both have room for; if none does, the old one is untouched. */
  method Realloc(h: Heap, p: int, newSize: int) returns (r: Pointer)
    requires h.Valid() && 0 <= newSize && (p != NULL ==> IsBlock(h.tags, p))
    requires p != NULL && newSize == 0 ==> Freeable(h, p)
    requires p != NULL && newSize > h.tags[p - BLOCK_AT].size ==> Freeable(h, p) || NoRoom(h.tags, newSize)
    modifies h, h.ram
    ensures r != Expanding ==> h.Valid() && KeepsBlocks(old(h.ram.bytes), h.ram.bytes, old(h.tags), h.tags, p)
    ensures r == Expanding ==> TakenShort(h, old(h.tags), newSize) && (p == NULL || newSize > old(h.tags)[p - BLOCK_AT].size)
    ensures r == Expanding ==> KeepsBlocks(old(h.ram.bytes), h.ram.bytes, old(h.tags), h.tags, NULL)
    ensures r.Block? ==> IsBlock(h.tags, r.addr) && h.tags[r.addr - BLOCK_AT].size >= newSize
    ensures r.Block? && p != NULL ==>
      var n := if newSize <= old(h.tags)[p - BLOCK_AT].size then newSize else old(h.tags)[p - BLOCK_AT].size;
      && 0 <= r.addr && r.addr + n <= |h.ram.bytes| && 0 <= p && p + n <= |old(h.ram.bytes)| && 0 <= n
      && h.ram.bytes[r.addr..r.addr + n] == old(h.ram.bytes)[p..p + n]
    ensures r.Block? ==> Blocks(h.tags) == Blocks(old(h.tags)) - {p} + {r.addr}
    ensures r.Block? && (p == NULL || newSize > old(h.tags)[p - BLOCK_AT].size) ==>
      r.addr !in Blocks(old(h.tags)) && h.tags[r.addr - BLOCK_AT].size <= newSize + 24
    ensures p != NULL && newSize == 0 ==> r == Null && Blocks(h.tags) == Blocks(old(h.tags)) - {p}
    ensures p != NULL && 0 < newSize <= old(h.tags)[p - BLOCK_AT].size ==>
      r == Block(p) && h.tags == old(h.tags) && h.ram.bytes == old(h.ram.bytes)
    ensures r == Null && (p == NULL || newSize > 0) ==> h.tags == old(h.tags) && h.ram.bytes == old(h.ram.bytes)
    ensures p == NULL || newSize > old(h.tags)[p - BLOCK_AT].size ==> (r == Null <==> NoRoom(old(h.tags), newSize))
  {
    hide Word, BinsLinked, Tiles, TagsOk, BinsOk, BinIndex, UsedBytes;
    hide KeepsUsed, KeepsOthers, Coalesced, Claimed, Extents, Blocks, KeepsBlocks;
    ghost var m0, t0 := h.ram.bytes, h.tags;
    NullNoBlock(t0, h.pred, h.start, h.end);
    KeepsBlocksSelf(m0, t0, p);
    if p == NULL {
      r := Malloc(h, newSize);
      return;
    }
    HeapFacts(m0, t0, h.pred, h.start, h.end, h.heads, h.bins, h.binOf, p - BLOCK_AT);
    var oldSize := h.ram.Load(p - BLOCK_AT + SIZE_AT);
    if newSize == 0 {
      Kfree(h, p);
      return Null;
    } else if newSize <= oldSize {
      BlockListed(t0, p);
      return Block(p);
    }
    r := Grow(h, p, oldSize, newSize);
  }

  /** `kmalloc` */
  method Malloc(h: Heap, size: int) returns (r: Pointer)
    requires h.Valid() && 0 <= size
    modifies h, h.ram
    ensures KeepsBlocks(old(h.ram.bytes), h.ram.bytes, old(h.tags), h.tags, NULL) && (r != Expanding ==> h.Valid())
    ensures (r == Expanding ==> TakenShort(h, old(h.tags), size)) && (r.Block? ==> !WildernessShort(h))
    ensures r == Null <==> NoRoom(old(h.tags), size)
    ensures r == Null ==> h.tags == old(h.tags) && h.ram.bytes == old(h.ram.bytes)
    ensures r.Block? ==> IsBlock(h.tags, r.addr) && size <= h.tags[r.addr - BLOCK_AT].size <= size + 24
    ensures r.Block? ==> r.addr !in Blocks(old(h.tags)) && Blocks(h.tags) == Blocks(old(h.tags)) + {r.addr}
  {
    hide Word, BinsLinked, Tiles, TagsOk, BinsOk, BinIndex, UsedBytes, KeepsUsed, Claimed, Extents, Blocks, KeepsBlocks;
    ghost var m0, t0 := h.ram.bytes, h.tags;
    KeepsBlocksSelf(m0, t0, NULL);
    TilesExtents(t0, h.pred, h.start, h.end);
    var a := h.Alloc(size);
    if !a.NoFit? {
      ClaimedFacts(t0, h.start, h.end, a.block - BLOCK_AT, size, 0);
      ClaimedBlockSet(t0, h.start, h.end, a.block - BLOCK_AT, size);
      ClaimedKeepsBlocks(m0, h.ram.bytes, t0, h.start, h.end, a.block - BLOCK_AT, size, NULL);
    }
    r := ToPointer(a);
  }

  /** `kfree` of a block, or of NULL, which is ignored. */
  method Kfree(h: Heap, p: int)
    requires h.Valid() && (p == NULL || Freeable(h, p))
    modifies h, h.ram
    ensures h.Valid() && KeepsBlocks(old(h.ram.bytes), h.ram.bytes, old(h.tags), h.tags, p)
    ensures Blocks(h.tags) == Blocks(old(h.tags)) - {p}
    ensures p == NULL ==> h.tags == old(h.tags) && h.ram.bytes == old(h.ram.bytes)
  {
    hide Word, BinsLinked, Tiles, TagsOk, BinsOk, BinIndex, UsedBytes, KeepsUsed, Coalesced, Blocks;
    ghost var m0, t0 := h.ram.bytes, h.tags;
    NullNoBlock(t0, h.pred, h.start, h.end);
    if p == NULL {
      h.Free(p);
      KeepsBlocksSelf(m0, t0, p);
      return;
    }
    HeapFacts(m0, t0, h.pred, h.start, h.end, h.heads, h.bins, h.binOf, p - BLOCK_AT);
    h.Free(p);
    FreedBlockSet(t0, old(h.pred), h.start, h.end, p - BLOCK_AT);
    forall z | z in t0 && !t0[z].hole && z != p - BLOCK_AT
      ensures z in h.tags && h.tags[z] == t0[z] && Agree(m0, h.ram.bytes, z, End(t0, z))
    {
      FreedKeepsBlock(m0, h.ram.bytes, t0, old(h.pred), h.start, h.end, p - BLOCK_AT, z);
    }
  }

  /** `kcalloc`: a zeroed block of n * size bytes, reduced to 32 bits. */
  method Calloc(h: Heap, n: int, size: int) returns (r: Pointer)
    requires h.Valid() && 0 <= n < WORD_LIMIT && 0 <= size < WORD_LIMIT
    modifies h, h.ram
    ensures KeepsBlocks(old(h.ram.bytes), h.ram.bytes, old(h.tags), h.tags, NULL) && (r != Expanding ==> h.Valid())
    ensures (r == Expanding ==> TakenShort(h, old(h.tags), n * size % WORD_LIMIT)) && (r.Block? ==> !WildernessShort(h))
    ensures r == Null <==> NoRoom(old(h.tags), n * size % WORD_LIMIT)
    ensures r == Null ==> h.tags == old(h.tags) && h.ram.bytes == old(h.ram.bytes)
    ensures r.Block? ==> r.addr !in Blocks(old(h.tags)) && Blocks(h.tags) == Blocks(old(h.tags)) + {r.addr}
    ensures r.Block? ==>
      var total := n * size % WORD_LIMIT;
      && IsBlock(h.tags, r.addr) && total <= h.tags[r.addr - BLOCK_AT].size <= total + 24
      && 0 <= r.addr && r.addr + total <= |h.ram.bytes| && h.ram.bytes[r.addr..r.addr + total] == Zeros(total)
  {
    hide Word, BinsLinked, Tiles, TagsOk, BinsOk, BinIndex, UsedBytes, KeepsUsed, KeepsOthers, Claimed, Extents, Replaced, Blocks;
    var total := n * size % WORD_LIMIT;
    ghost var m0, t0 := h.ram.bytes, h.tags;
    TilesExtents(t0, h.pred, h.start, h.end);
    KeepsBlocksSelf(m0, t0, NULL);
    var a := h.Alloc(total);
    if a.Allocated? {
      ghost var m1, t1, y := h.ram.bytes, h.tags, a.block - BLOCK_AT;
      ClaimedFacts(t0, h.start, h.end, y, total, 0);
      ClaimedBlockSet(t0, h.start, h.end, y, total);
      ClaimedKeepsBlocks(m0, m1, t0, h.start, h.end, y, total, NULL);
      HeapFacts(m1, t1, h.pred, h.start, h.end, h.heads, h.bins, h.binOf, y);
      h.ram.Clear(a.block, total);
      CopiedInBlock(m1, h.ram.bytes, t1, y, a.block, Zeros(total));
      ClientWrite(m1, h.ram.bytes, t1, h.pred, h.start, h.end, y, h.heads, h.bins, h.binOf);
      forall z | z in t1 && z != y
        ensures Agree(m1, h.ram.bytes, z, End(t1, z))
      {
        OtherKept(m1, h.ram.bytes, t1, y, z);
      }
      KeepsBlocksTwice(m0, m1, h.ram.bytes, t0, t1, h.tags, NULL, a.block);
    } else if a.NeedsExpand? {
      ClaimedKeepsBlocks(m0, h.ram.bytes, t0, h.start, h.end, a.block - BLOCK_AT, total, NULL);
    }
    r := ToPointer(a);
  }

  lemma ClaimedBlocks(tags: Tags, start: int, end: int, y: int, size: int, p: int)
    requires Extents(tags, start, end) && y in tags && tags[y].hole && 0 <= size <= tags[y].size
    ensures IsBlock(Claimed(tags, y, size), p) <==> IsBlock(tags, p) || p == y + BLOCK_AT
  {
  }

  lemma ClaimedBlockSet(tags: Tags, start: int, end: int, y: int, size: int)
    requires Extents(tags, start, end) && y in tags && tags[y].hole && 0 <= size <= tags[y].size
    ensures y + BLOCK_AT !in Blocks(tags) && Blocks(Claimed(tags, y, size)) == Blocks(tags) + {y + BLOCK_AT}
  {
    hide Extents, Claimed;
    forall p ensures p in Blocks(Claimed(tags, y, size)) <==> p in Blocks(tags) || p == y + BLOCK_AT {
      ClaimedBlocks(tags, start, end, y, size, p);
      BlockListed(tags, p);
      BlockListed(Claimed(tags, y, size), p);
    }
  }

  lemma FreedBlockSet(tags: Tags, pred: map<int, int>, start: int, end: int, x: int)
    requires Tiles(tags, pred, start, end) && x in tags && !tags[x].hole && (x == start || End(tags, x) != end)
    ensures Blocks(Coalesced(tags, pred, start, end, x)) == Blocks(tags) - {x + BLOCK_AT}
  {
    hide Tiles, Coalesced;
    forall q ensures q in Blocks(Coalesced(tags, pred, start, end, x)) <==> q in Blocks(tags) && q != x + BLOCK_AT {
      FreedBlocks(tags, pred, start, end, x, q);
      BlockListed(tags, q);
      BlockListed(Coalesced(tags, pred, start, end, x), q);
    }
  }

  lemma BlockListed(tags: Tags, p: int)
    ensures IsBlock(tags, p) <==> p in Blocks(tags)
    ensures p in Blocks(tags) ==> Blocks(tags) - {p} + {p} == Blocks(tags)
  {
  }

  lemma NullNoBlock(tags: Tags, pred: map<int, int>, start: int, end: int)
    requires 0 < start && Tiles(tags, pred, start, end)
    ensures NULL !in Blocks(tags) && Blocks(tags) - {NULL} == Blocks(tags)
  {
  }

  lemma FreedBlocks(tags: Tags, pred: map<int, int>, start: int, end: int, x: int, q: int)
    requires Tiles(tags, pred, start, end) && x in tags && !tags[x].hole && (x == start || End(tags, x) != end)
    ensures IsBlock(Coalesced(tags, pred, start, end, x), q) <==> IsBlock(tags, q) && q != x + BLOCK_AT
  {
  }
}
