/** How chunks tile the heap (src/kernel/src/allocator/allocator.c). A chunk at `x` is a 16-byte header, `size` bytes and
    a 4-byte footer; the client's block starts 8 bytes in, over the link fields. */
module HeapLayout {
  import opened Arith

  const OVERHEAD := 20
  const MIN_ALLOC := 4
  const BIN_COUNT := 9
  const HEAP_INIT_SIZE := 0x1_0000

  datatype Tag = Tag(size: int, hole: bool)

  type Tags = map<int, Tag>

  // ----- Binning -----

  /** Which bin holes of a size belong to. */
  function BinIndex(size: int): (b: int)
    ensures 0 <= b < BIN_COUNT
  {
    var sz := if size < 4 then 4 else size;
    LogAtLeastTwo(sz);
    if Log2(sz) - 2 > BIN_COUNT - 1 then BIN_COUNT - 1 else Log2(sz) - 2
  }

  lemma LogAtLeastTwo(n: nat)
    requires n >= 4
    ensures Log2(n) >= 2
  {
  }

  lemma {:induction false} LogMonotone(a: nat, b: nat)
    requires a <= b
    ensures Log2(a) <= Log2(b)
  {
    if a >= 2 {
      LogMonotone(a / 2, b / 2);
    }
  }

  lemma BinMonotone(a: int, b: int)
    requires a <= b
    ensures BinIndex(a) <= BinIndex(b)
  {
    LogMonotone(if a < 4 then 4 else a, if b < 4 then 4 else b);
  }

  /** Nine bins: below 8 bytes, one for each power of two up to 1024, and from there on one for all. */
  lemma BinInNumbers(size: int)
    requires 0 <= size
    ensures var b := BinIndex(size);
      if size < 8 then b == 0 else if size >= 1024 then b == 8 else Pow(2, b + 2) <= size < Pow(2, b + 3)
  {
    LogsInNumbers();
    if size >= 8 { LogBetween(size); }
    if size >= 1024 { LogMonotone(1024, size); }
    if 8 <= size < 1024 { LogMonotone(size, 1023); LogMonotone(8, size); }
    hide Pow, Log2;
  }

  lemma LogsInNumbers()
    ensures Log2(8) == 3 && Log2(1023) == 9 && Log2(1024) == 10
  {
    assert Log2(15) == 3 && Log2(16) == 4;
    assert Log2(127) == 6 && Log2(128) == 7;
  }

  lemma {:induction false} LogBetween(n: nat)
    requires n > 0
    ensures Pow(2, Log2(n)) <= n < Pow(2, Log2(n) + 1)
  {
    if n > 1 { LogBetween(n / 2); }
  }

  /** `get_bin_index`, with its shifting loop. */
  method GetBinIndex(size: int) returns (index: int)
    requires 0 <= size
    ensures index == BinIndex(size)
  {
    index := 0;
    var sz := if size < 4 then 4 else size;
    ghost var whole := sz;
    LogAtLeastTwo(sz);
    while sz / 2 != 0
      invariant 1 <= sz && 0 <= index && index + Log2(sz) == Log2(whole)
      decreases sz
    {
      sz := sz / 2;
      index := index + 1;
    }
    index := index - 2;
    if index > BIN_COUNT - 1 {
      index := BIN_COUNT - 1;
    }
  }

  // ----- Tiling -----

  ghost function End(tags: Tags, x: int): int
    requires x in tags
  {
    x + OVERHEAD + tags[x].size
  }

  /** Chunks lie in [start, end) and do not overlap. */
  ghost predicate Extents(tags: Tags, start: int, end: int) {
    && (forall x :: x in tags ==> tags[x].size >= 0 && start <= x && End(tags, x) <= end)
    && (forall x, y :: x in tags && y in tags && x != y ==> End(tags, x) <= y || End(tags, y) <= x)
  }

  /** The chunk at `x` ends where another begins, or where the heap ends. */
  ghost predicate Continues(tags: Tags, end: int, x: int)
    requires x in tags
  {
    End(tags, x) == end || End(tags, x) in tags
  }

  /** `pred` knows the chunk that ends at the boundary `b`. */
  ghost predicate Preceded(tags: Tags, pred: map<int, int>, b: int) {
    b in pred && pred[b] in tags && End(tags, pred[b]) == b
  }

  /** Chunks leave no gap between `start` and `end`, and `pred` gives the chunk that ends at each boundary. */
  ghost predicate Tiles(tags: Tags, pred: map<int, int>, start: int, end: int) {
    && Extents(tags, start, end) && start in tags
    && (forall x {:trigger Continues(tags, end, x)} :: x in tags ==> Continues(tags, end, x))
    && (forall b {:trigger Preceded(tags, pred, b)} :: b in tags && b != start ==> Preceded(tags, pred, b))
    && Preceded(tags, pred, end)
  }

  /** Sizes plus overhead of the chunks from `x` to the end. */
  ghost function Footprint(tags: Tags, pred: map<int, int>, start: int, end: int, x: int): int
    requires Tiles(tags, pred, start, end) && (x in tags || x == end)
    decreases end - x
  {
    assert x in tags ==> Continues(tags, end, x);
    if x == end then 0 else tags[x].size + OVERHEAD + Footprint(tags, pred, start, end, End(tags, x))
  }

  lemma {:induction false} FootprintReaches(tags: Tags, pred: map<int, int>, start: int, end: int, x: int)
    requires Tiles(tags, pred, start, end) && (x in tags || x == end)
    ensures Footprint(tags, pred, start, end, x) == end - x
    decreases end - x
  {
    if x != end {
      assert Continues(tags, end, x);
      FootprintReaches(tags, pred, start, end, End(tags, x));
    }
  }

  /** Conservation: payload sizes plus overhead add up to the whole heap. */
  lemma Conservation(tags: Tags, pred: map<int, int>, start: int, end: int)
    requires Tiles(tags, pred, start, end)
    ensures Footprint(tags, pred, start, end, start) == end - start
  {
    FootprintReaches(tags, pred, start, end, start);
  }

  // ----- Splitting, merging, marking -----

  /** The tags after the chunk at `x` is cut after `size` bytes; the rest becomes a hole. */
  ghost function SplitTags(tags: Tags, x: int, size: int): Tags
    requires x in tags
  {
    tags[x := Tag(size, tags[x].hole)][x + OVERHEAD + size := Tag(tags[x].size - size - OVERHEAD, true)]
  }

  ghost function SplitPred(tags: Tags, pred: map<int, int>, x: int, size: int): map<int, int>
    requires x in tags
  {
    pred[x + OVERHEAD + size := x][End(tags, x) := x + OVERHEAD + size]
  }

  lemma SplitTiles(tags: Tags, pred: map<int, int>, start: int, end: int, x: int, size: int)
    requires Tiles(tags, pred, start, end) && x in tags && 0 <= size && size + OVERHEAD <= tags[x].size
    ensures x + OVERHEAD + size !in tags
    ensures Tiles(SplitTags(tags, x, size), SplitPred(tags, pred, x, size), start, end)
  {
    var y := x + OVERHEAD + size;
    var tags', pred' := SplitTags(tags, x, size), SplitPred(tags, pred, x, size);
    SplitExtents(tags, start, end, x, size);
    hide SplitTags, SplitPred;
    forall a | a in tags'
      ensures Continues(tags', end, a)
    {
      SplitContinues(tags, pred, start, end, x, size, a);
    }
    forall b | (b in tags' && b != start) || b == end
      ensures Preceded(tags', pred', b)
    {
      SplitPreceded(tags, pred, start, end, x, size, b);
    }
    assert start in tags' by { StartStays(tags, x, size, start); }
  }

  lemma StartStays(tags: Tags, x: int, size: int, start: int)
    requires x in tags && start in tags
    ensures start in SplitTags(tags, x, size)
  {
  }

  lemma SplitContinues(tags: Tags, pred: map<int, int>, start: int, end: int, x: int, size: int, a: int)
    requires Tiles(tags, pred, start, end) && x in tags && 0 <= size && size + OVERHEAD <= tags[x].size && a in SplitTags(tags, x, size)
    ensures Continues(SplitTags(tags, x, size), end, a)
  {
    assert Continues(tags, end, if a == x + OVERHEAD + size then x else a);
  }

  lemma SplitPreceded(tags: Tags, pred: map<int, int>, start: int, end: int, x: int, size: int, b: int)
    requires Tiles(tags, pred, start, end) && x in tags && 0 <= size && size + OVERHEAD <= tags[x].size
    requires (b in SplitTags(tags, x, size) && b != start) || b == end
    ensures Preceded(SplitTags(tags, x, size), SplitPred(tags, pred, x, size), b)
  {
    var y := x + OVERHEAD + size;
    SplitExtents(tags, start, end, x, size);
    if b != y {
      assert Preceded(tags, pred, b);
      EndsAt(tags, start, end, pred[b], x);
    }
  }

  lemma SplitExtents(tags: Tags, start: int, end: int, x: int, size: int)
    requires Extents(tags, start, end) && x in tags && 0 <= size && size + OVERHEAD <= tags[x].size
    ensures x + OVERHEAD + size !in tags && Extents(SplitTags(tags, x, size), start, end)
  {
    var y := x + OVERHEAD + size;
    var tags' := SplitTags(tags, x, size);
    assert y in tags ==> End(tags, x) <= y || End(tags, y) <= x;
    forall a, b | a in tags' && b in tags' && a != b
      ensures End(tags', a) <= b || End(tags', b) <= a
    {
      var a', b' := if a == y then x else a, if b == y then x else b;
      assert a' in tags && b' in tags;
      if a' != b' {
        assert End(tags, a') <= b' || End(tags, b') <= a';
      }
    }
  }

  /** The tags after the chunk at `x` swallows the chunk `y` that follows it. */
  ghost function MergeTags(tags: Tags, x: int, y: int): Tags
    requires x in tags && y in tags
  {
    (tags - {y})[x := Tag(tags[x].size + OVERHEAD + tags[y].size, tags[x].hole)]
  }

  ghost function MergePred(tags: Tags, pred: map<int, int>, x: int, y: int): map<int, int>
    requires y in tags
  {
    pred[End(tags, y) := x]
  }

  lemma MergeTiles(tags: Tags, pred: map<int, int>, start: int, end: int, x: int, y: int)
    requires Tiles(tags, pred, start, end) && x in tags && y in tags && End(tags, x) == y
    ensures Tiles(MergeTags(tags, x, y), MergePred(tags, pred, x, y), start, end)
  {
    var tags', pred' := MergeTags(tags, x, y), MergePred(tags, pred, x, y);
    MergeExtents(tags, start, end, x, y);
    forall a | a in tags'
      ensures Continues(tags', end, a)
    {
      MergeContinues(tags, pred, start, end, x, y, a);
    }
    forall b | (b in tags' && b != start) || b == end
      ensures Preceded(tags', pred', b)
    {
      MergePreceded(tags, pred, start, end, x, y, b);
    }
  }

  lemma MergeContinues(tags: Tags, pred: map<int, int>, start: int, end: int, x: int, y: int, a: int)
    requires Tiles(tags, pred, start, end) && x in tags && y in tags && End(tags, x) == y && a in MergeTags(tags, x, y)
    ensures Continues(MergeTags(tags, x, y), end, a)
  {
    assert Continues(tags, end, if a == x then y else a);
    EndsAt(tags, start, end, a, x);
    EndsAt(tags, start, end, y, x);
  }

  lemma MergePreceded(tags: Tags, pred: map<int, int>, start: int, end: int, x: int, y: int, b: int)
    requires Tiles(tags, pred, start, end) && x in tags && y in tags && End(tags, x) == y
    requires (b in MergeTags(tags, x, y) && b != start) || b == end
    ensures Preceded(MergeTags(tags, x, y), MergePred(tags, pred, x, y), b)
  {
    assert Preceded(tags, pred, b);
    EndsAt(tags, start, end, pred[b], y);
    EndsAt(tags, start, end, pred[b], x);
  }

  /** Different chunks end at different places. */
  lemma EndsAt(tags: Tags, start: int, end: int, a: int, b: int)
    requires Extents(tags, start, end) && a in tags && b in tags
    ensures End(tags, a) == End(tags, b) <==> a == b
  {
  }

  lemma MergeExtents(tags: Tags, start: int, end: int, x: int, y: int)
    requires Extents(tags, start, end) && x in tags && y in tags && End(tags, x) == y
    ensures Extents(MergeTags(tags, x, y), start, end)
  {
  }

  // ----- Bytes in use -----

  /** The size of the chunk in use at `x`, or 0. */
  ghost function UsedAt(tags: Tags, x: int): int {
    if x in tags && !tags[x].hole then tags[x].size else 0
  }

  /** Bytes in use in the chunks that start in [lo, hi): over the whole heap, what `bytes_allocated` counts. */
  ghost function UsedBytes(tags: Tags, lo: int, hi: int): int
    decreases hi - lo
  {
    if lo >= hi then 0 else UsedAt(tags, lo) + UsedBytes(tags, lo + 1, hi)
  }

  /** Changing what one chunk counts for changes the total by as much; rearranging holes changes nothing. */
  lemma {:induction false} UsedBytesChange(tags: Tags, tags': Tags, lo: int, hi: int, x: int)
    requires forall y :: y != x ==> UsedAt(tags', y) == UsedAt(tags, y)
    ensures UsedBytes(tags', lo, hi) == UsedBytes(tags, lo, hi) + (if lo <= x < hi then UsedAt(tags', x) - UsedAt(tags, x) else 0)
    decreases hi - lo
  {
    if lo < hi {
      UsedBytesChange(tags, tags', lo + 1, hi, x);
    }
  }
}
