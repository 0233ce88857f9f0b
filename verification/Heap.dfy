/** The boundary-tag heap (src/kernel/src/allocator/allocator.c) over byte memory: headers, footers and bins. */
module Heap {
  import opened Common
  import opened HeapMemory
  import opened HeapBins
  import opened HeapLayout

  // ----- Bins together -----

  ghost predicate BinLinked(m: seq<byte>, head: int, s: seq<int>, binOf: map<int, int>, b: int) {
    && Linked(m, head, s) && Among(s, binOf.Keys)
    && forall x :: x in s <==> x in binOf && binOf[x] == b
  }

  /** Each bin is a well-formed list, and every listed node is in exactly one bin, the one `binOf` says. */
  ghost predicate BinsLinked(m: seq<byte>, heads: seq<int>, bins: seq<seq<int>>, binOf: map<int, int>) {
    && |heads| == BIN_COUNT && |bins| == BIN_COUNT
    && forall b :: 0 <= b < BIN_COUNT ==> BinLinked(m, heads[b], bins[b], binOf, b)
  }

  /** Writing outside the link fields of listed nodes does not disturb the bins. */
  lemma LinksKeepBins(m: seq<byte>, m': seq<byte>, heads: seq<int>, bins: seq<seq<int>>, binOf: map<int, int>)
    requires BinsLinked(m, heads, bins, binOf) && forall x :: x in binOf ==> Agree(m, m', x + NEXT_AT, x + HEADER)
    ensures BinsLinked(m', heads, bins, binOf)
  {
    hide Word;
    forall b | 0 <= b < BIN_COUNT
      ensures BinLinked(m', heads[b], bins[b], binOf, b)
    {
      assert BinLinked(m, heads[b], bins[b], binOf, b);
      forall i | 0 <= i < |bins[b]|
        ensures Word(m', bins[b][i] + NEXT_AT) == Word(m, bins[b][i] + NEXT_AT)
        ensures Word(m', bins[b][i] + PREV_AT) == Word(m, bins[b][i] + PREV_AT)
      {
        var x := bins[b][i];
        assert x in bins[b] && x in binOf;
        AgreeWord(m, m', x + NEXT_AT, x + HEADER, x + NEXT_AT);
        AgreeWord(m, m', x + NEXT_AT, x + HEADER, x + PREV_AT);
      }
      LinkedFrame(m, m', heads[b], bins[b]);
    }
  }

  lemma LinkedFrame(m: seq<byte>, m': seq<byte>, head: int, s: seq<int>)
    requires Linked(m, head, s)
    requires forall i :: 0 <= i < |s| ==>
      Word(m', s[i] + NEXT_AT) == Word(m, s[i] + NEXT_AT) && Word(m', s[i] + PREV_AT) == Word(m, s[i] + PREV_AT)
    ensures Linked(m', head, s)
  {
  }

  /** Working on bin `b` does not disturb the other bins. */
  lemma OtherBins(m: seq<byte>, m': seq<byte>, heads: seq<int>, bins: seq<seq<int>>, binOf: map<int, int>,
                  b: int, d: set<int>, t: seq<int>, c: int)
    requires BinsLinked(m, heads, bins, binOf) && OnlyLinks(m, m', d, t) && binOf.Keys <= d
    requires 0 <= b < BIN_COUNT && 0 <= c < BIN_COUNT && c != b && forall x :: x in t ==> x in bins[b] || x !in binOf
    ensures Linked(m', heads[c], bins[c])
  {
  }

  // ----- Tags in memory -----

  /** Header and footer of the chunk at `x` say what its tag says; the footer points back at the header. */
  ghost predicate TagOk(m: seq<byte>, x: int, t: Tag) {
    Word(m, x) == (if t.hole then 1 else 0) && Word(m, x + SIZE_AT) == t.size && Word(m, x + HEADER + t.size) == x
  }

  /** Size and footer, but not the hole flag. */
  ghost predicate TagBody(m: seq<byte>, x: int, t: Tag) {
    Word(m, x + SIZE_AT) == t.size && Word(m, x + HEADER + t.size) == x
  }

  ghost predicate TagsOk(m: seq<byte>, tags: Tags, except: int) {
    forall x :: x in tags && x != except ==> TagOk(m, x, tags[x])
  }

  lemma TagFrame(m: seq<byte>, m': seq<byte>, x: int, t: Tag)
    requires Agree(m, m', x, x + OVERHEAD + t.size) && t.size >= 0 && TagOk(m, x, t)
    ensures TagOk(m', x, t)
  {
  }

  /** Every chunk in use keeps every byte. */
  ghost predicate KeepsUsed(m: seq<byte>, m': seq<byte>, tags: Tags) {
    |m'| == |m| && forall x :: x in tags && !tags[x].hole ==> Agree(m, m', x, End(tags, x))
  }

  lemma KeepsUsedSelf(m: seq<byte>, tags: Tags)
    ensures KeepsUsed(m, m, tags)
  {
  }

  lemma KeepsUsedTwice(m: seq<byte>, m1: seq<byte>, m2: seq<byte>, tags: Tags)
    requires KeepsUsed(m, m1, tags) && KeepsUsed(m1, m2, tags)
    ensures KeepsUsed(m, m2, tags)
  {
  }

  /** Relinking holes leaves chunks in use and all tags alone. */
  lemma RelinkKeeps(m: seq<byte>, m': seq<byte>, tags: Tags, start: int, end: int, d: set<int>, s: seq<int>)
    requires OnlyLinks(m, m', d, s) && Extents(tags, start, end) && (forall x :: x in d ==> x in tags && tags[x].hole)
    ensures KeepsUsed(m, m', tags)
    ensures forall x :: x in tags && TagOk(m, x, tags[x]) ==> TagOk(m', x, tags[x])
  {
    hide Word;
    forall x | x in tags && x !in d
      ensures Agree(m, m', x, End(tags, x))
    {
      forall k | 0 <= k < |m| && x <= k < End(tags, x)
        ensures m'[k] == m[k]
      {
        forall y | y in d
          ensures !(y + NEXT_AT <= k < y + HEADER)
        {
          assert End(tags, x) <= y || End(tags, y) <= x;
        }
      }
    }
    forall x | x in tags && TagOk(m, x, tags[x])
      ensures TagOk(m', x, tags[x])
    {
      if x in d {
        RelinkKeepsTag(m, m', tags, start, end, d, s, x);
      } else {
        TagFrame(m, m', x, tags[x]);
      }
    }
  }

  /** Relinking does not touch the hole and size fields of any header. */
  lemma RelinkKeepsHeader(m: seq<byte>, m': seq<byte>, tags: Tags, start: int, end: int, d: set<int>, s: seq<int>, x: int)
    requires OnlyLinks(m, m', d, s) && Extents(tags, start, end) && (forall x :: x in d ==> x in tags) && x in tags
    ensures Word(m', x) == Word(m, x) && Word(m', x + SIZE_AT) == Word(m, x + SIZE_AT)
  {
  }

  lemma RelinkKeepsTag(m: seq<byte>, m': seq<byte>, tags: Tags, start: int, end: int, d: set<int>, s: seq<int>, x: int)
    requires OnlyLinks(m, m', d, s) && Extents(tags, start, end) && (forall x :: x in d ==> x in tags)
    requires x in tags && TagOk(m, x, tags[x])
    ensures TagOk(m', x, tags[x])
  {
    hide Word;
    forall k | 0 <= k < |m| && (x <= k < x + NEXT_AT || x + HEADER <= k < End(tags, x))
      ensures m'[k] == m[k]
    {
      forall y | y in d
        ensures !(y + NEXT_AT <= k < y + HEADER)
      {
        assert x == y || End(tags, x) <= y || End(tags, y) <= x;
      }
    }
    AgreeWord(m, m', x, x + NEXT_AT, x);
    AgreeWord(m, m', x, x + NEXT_AT, x + SIZE_AT);
    AgreeWord(m, m', x + HEADER, End(tags, x), x + HEADER + tags[x].size);
  }

  /** Writing inside one chunk leaves the others alone. */
  lemma StoreKeeps(m: seq<byte>, m': seq<byte>, tags: Tags, start: int, end: int, c: int, a: int, v: int)
    requires Stored(m, m', a, v) && Extents(tags, start, end) && c in tags && c <= a && a + 4 <= End(tags, c)
    ensures forall x :: x in tags && x != c ==> Agree(m, m', x, End(tags, x))
    ensures TagsOk(m, tags, c) ==> TagsOk(m', tags, c)
    ensures tags[c].hole ==> KeepsUsed(m, m', tags)
  {
  }

  /** Writing inside one chunk, but not on its link fields, leaves the bins alone. */
  lemma StoreKeepsBins(m: seq<byte>, m': seq<byte>, tags: Tags, start: int, end: int, c: int, a: int, v: int,
                       heads: seq<int>, bins: seq<seq<int>>, binOf: map<int, int>)
    requires Stored(m, m', a, v) && Extents(tags, start, end) && c in tags && binOf.Keys <= tags.Keys
    requires c <= a && a + 4 <= End(tags, c) && (a + 4 <= c + NEXT_AT || c + HEADER <= a)
    requires BinsLinked(m, heads, bins, binOf)
    ensures BinsLinked(m', heads, bins, binOf)
  {
    hide Word, BinsLinked;
    forall z | z in binOf
      ensures Agree(m, m', z + NEXT_AT, z + HEADER)
    {
      assert z in tags && (z == c || End(tags, z) <= c || End(tags, c) <= z);
    }
    LinksKeepBins(m, m', heads, bins, binOf);
  }

  lemma TagsOkAll(m: seq<byte>, tags: Tags, x: int)
    requires TagsOk(m, tags, x) && x in tags && TagOk(m, x, tags[x])
    ensures TagsOk(m, tags, NULL)
  {
  }

  /** Flipping the hole flag of `x`, in memory and in its tag. */
  lemma Marked(m: seq<byte>, m': seq<byte>, tags: Tags, pred: map<int, int>, start: int, end: int, x: int, hole: bool)
    requires Tiles(tags, pred, start, end) && TagsOk(m, tags, NULL) && x in tags && 0 < start
    requires Stored(m, m', x, if hole then 1 else 0)
    ensures var tags' := tags[x := Tag(tags[x].size, hole)];
      Tiles(tags', pred, start, end) && Extents(tags', start, end) && TagsOk(m', tags', NULL)
  {
    MarkTiles(tags, pred, start, end, x, hole);
    TilesExtents(tags, pred, start, end);
    hide Tiles, Extents, TagsOk, Stored;
    TilesExtents(tags[x := Tag(tags[x].size, hole)], pred, start, end);
    MarkedTags(m, m', tags, start, end, x, hole);
  }

  lemma MarkedTags(m: seq<byte>, m': seq<byte>, tags: Tags, start: int, end: int, x: int, hole: bool)
    requires Extents(tags, start, end) && TagsOk(m, tags, NULL) && x in tags && 0 < start && Stored(m, m', x, if hole then 1 else 0)
    ensures TagsOk(m', tags[x := Tag(tags[x].size, hole)], NULL)
  {
    hide Word;
    var tags' := tags[x := Tag(tags[x].size, hole)];
    StoreKeeps(m, m', tags, start, end, x, x, if hole then 1 else 0);
    assert TagOk(m, x, tags[x]);
    forall z | z in tags'
      ensures TagOk(m', z, tags'[z])
    {
      assert z != x ==> TagOk(m', z, tags[z]);
    }
  }

  lemma MarkExtents(tags: Tags, start: int, end: int, x: int, hole: bool)
    requires Extents(tags, start, end) && x in tags
    ensures Extents(tags[x := Tag(tags[x].size, hole)], start, end)
  {
    var tags' := tags[x := Tag(tags[x].size, hole)];
    forall a, b | a in tags' && b in tags' && a != b
      ensures End(tags', a) <= b || End(tags', b) <= a
    {
      assert End(tags, a) <= b || End(tags, b) <= a;
    }
  }

  lemma MarkTiles(tags: Tags, pred: map<int, int>, start: int, end: int, x: int, hole: bool)
    requires Tiles(tags, pred, start, end) && x in tags
    ensures Tiles(tags[x := Tag(tags[x].size, hole)], pred, start, end)
  {
    var tags' := tags[x := Tag(tags[x].size, hole)];
    MarkExtents(tags, start, end, x, hole);
    forall z | z in tags'
      ensures Continues(tags', end, z)
    {
      assert Continues(tags, end, z);
    }
    forall b | (b in tags' && b != start) || b == end
      ensures Preceded(tags', pred, b)
    {
      assert Preceded(tags, pred, b);
    }
  }

  lemma RelinkKeepsAll(m: seq<byte>, m': seq<byte>, tags: Tags, start: int, end: int, d: set<int>, s: seq<int>)
    requires OnlyLinks(m, m', d, s) && Extents(tags, start, end) && d <= tags.Keys && TagsOk(m, tags, NULL)
    ensures TagsOk(m', tags, NULL)
  {
    hide TagOk, OnlyLinks;
    forall x | x in tags && x != NULL
      ensures TagOk(m', x, tags[x])
    {
      RelinkKeepsTag(m, m', tags, start, end, d, s, x);
    }
  }

  lemma RelinkKeepsUsed(m: seq<byte>, m': seq<byte>, tags: Tags, start: int, end: int,
                        bins: seq<seq<int>>, binOf: map<int, int>, except: int, s: seq<int>)
    requires OnlyLinks(m, m', binOf.Keys, s) && Extents(tags, start, end) && BinsOk(tags, bins, binOf, except)
    ensures KeepsUsed(m, m', tags)
  {
  }

  /** Headers of chunks fit memory and do not overlap. */
  lemma ChunkHeaders(m: seq<byte>, tags: Tags, start: int, end: int, d: set<int>)
    requires 0 < start && end <= |m| && end < WORD_LIMIT && Extents(tags, start, end) && d <= tags.Keys
    ensures Headers(m, d)
  {
  }

  /** Writes the header of a hole and its footer (`create_foot`), and nothing else. */
  method WriteHole(ram: Ram, x: int, size: int)
    requires 0 < x < WORD_LIMIT && 0 <= size < WORD_LIMIT && x + OVERHEAD + size <= |ram.bytes|
    modifies ram
    ensures TagOk(ram.bytes, x, Tag(size, true)) && |ram.bytes| == |old(ram.bytes)|
    ensures forall k :: 0 <= k < |ram.bytes| && !(x <= k < x + NEXT_AT) && !(x + HEADER + size <= k < x + OVERHEAD + size) ==>
      ram.bytes[k] == old(ram.bytes)[k]
  {
    hide Word;
    ram.Store(x + SIZE_AT, size);
    ram.Store(x, 1);
    ram.Store(x + HEADER + size, x);
  }

  // ----- Bins and tags -----

  /** Ascending by size, apart from one node whose size has just changed. */
  ghost predicate Sorted(tags: Tags, s: seq<int>, except: int) {
    && (forall i :: 0 <= i < |s| ==> s[i] in tags)
    && forall i, j :: 0 <= i < j < |s| && s[i] != except && s[j] != except ==> tags[s[i]].size <= tags[s[j]].size
  }

  /** The listed nodes are exactly the holes, each in its size's bin in ascending order. */
  ghost predicate BinsOk(tags: Tags, bins: seq<seq<int>>, binOf: map<int, int>, except: int) {
    && |bins| == BIN_COUNT
    && (forall x :: x in binOf <==> x in tags && tags[x].hole)
    && (forall x :: x in binOf && x != except ==> binOf[x] == BinIndex(tags[x].size))
    && (forall b :: 0 <= b < BIN_COUNT ==> Sorted(tags, bins[b], except))
  }

  lemma InsertSorted(tags: Tags, s: seq<int>, k: int, x: int)
    requires Sorted(tags, s, NULL) && x in tags && 0 <= k <= |s| && NULL !in tags
    requires forall i :: 0 <= i < k ==> tags[s[i]].size <= tags[x].size
    requires k < |s| ==> tags[s[k]].size > tags[x].size
    ensures Sorted(tags, Inserted(s, k, x), NULL)
  {
  }

  lemma RemoveSorted(tags: Tags, s: seq<int>, k: int, x: int)
    requires Sorted(tags, s, x) && 0 <= k < |s| && s[k] == x
    requires forall i, j :: 0 <= i < j < |s| ==> s[i] != s[j]
    ensures Sorted(tags, Without(s, k), NULL)
  {
  }

  const BLOCK_AT := 8
  const MIN_WILDERNESS := 0x2000

  /** What `heap_alloc` comes to: NULL because nothing fits, a block, or a block whose taking leaves the last chunk so
      small that `expand` is called. */
  datatype AllocResult = NoFit | Allocated(block: int) | NeedsExpand(block: int)

  /** The tags after the hole `x` is split if the rest is worth keeping, and taken. */
  ghost function Claimed(tags: Tags, x: int, size: int): Tags
    requires x in tags
  {
    if tags[x].size - size > OVERHEAD + MIN_ALLOC then SplitTags(tags, x, size)[x := Tag(size, false)]
    else tags[x := Tag(tags[x].size, false)]
  }

  /** The hole `x` serves a request for `size` bytes: whole if at most 24 bytes would be left over, and otherwise cut to exactly `size`
      bytes, with a hole behind it that starts `size` + 20 bytes on and has all that is left but 20 bytes. */
  ghost predicate Serves(tags: Tags, tags': Tags, x: int, size: int) {
    && x in tags && tags[x].hole && x in tags' && !tags'[x].hole && size <= tags'[x].size <= size + 24
    && (tags[x].size <= size + 24 ==> tags' == tags[x := Tag(tags[x].size, false)])
    && (tags[x].size > size + 24 ==> tags' == tags[x := Tag(size, false)][x + 20 + size := Tag(tags[x].size - size - 20, true)])
  }

  lemma ClaimedServes(tags: Tags, x: int, size: int)
    requires x in tags && tags[x].hole && 0 <= size <= tags[x].size
    ensures Serves(tags, Claimed(tags, x, size), x, size)
  {
  }

  class Heap {
    const ram: Ram
    const start: int
    const end: int
    var heads: seq<int>
    var bytesAllocated: int
    ghost var tags: Tags
    ghost var pred: map<int, int>
    ghost var bins: seq<seq<int>>
    ghost var binOf: map<int, int>

    /** The heap invariant, apart from the byte count. */
    ghost predicate Sound()
      reads this, ram
    {
      && 0 < start && end == start + HEAP_INIT_SIZE && end <= |ram.bytes| && end < WORD_LIMIT
      && Tiles(tags, pred, start, end) && TagsOk(ram.bytes, tags, NULL)
      && BinsLinked(ram.bytes, heads, bins, binOf) && BinsOk(tags, bins, binOf, NULL)
    }

    ghost predicate Valid()
      reads this, ram
    {
      Sound() && bytesAllocated == UsedBytes(tags, start, end)
    }

    /** `create_heap`: one hole covering everything. The bins are empty. */
    constructor (ram: Ram, start: int)
      requires 0 < start && start + HEAP_INIT_SIZE <= |ram.bytes| && start + HEAP_INIT_SIZE < WORD_LIMIT
      modifies ram
      ensures this.ram == ram && this.start == start && Valid()
      ensures tags == map[start := Tag(65516, true)] && end == start + 65536
    {
      this.ram, this.start, this.end := ram, start, start + HEAP_INIT_SIZE;
      heads, bytesAllocated := seq(BIN_COUNT, _ => NULL), 0;
      tags, pred := map[start := Tag(HEAP_INIT_SIZE - OVERHEAD, true)], map[start + HEAP_INIT_SIZE := start];
      bins, binOf := seq(BIN_COUNT, _ => []), map[];
      new;
      var size := HEAP_INIT_SIZE - OVERHEAD;
      WriteHole(ram, start, size);
      ghost var m := ram.bytes;
      EmptyBins(m, heads, bins, binOf);
      OneChunk(m, tags, pred, start, end, size);
      hide Word, TagOk, BinsLinked, BinsOk, Tiles, OnlyLinks, BinIndex, Inserted, Linked;
      var b := GetBinIndex(size);
      ghost var k := Enlist(b, start);
      OneHole(tags, bins, binOf, b, start, k);
      RelinkKeeps(m, ram.bytes, tags, start, end, {start}, [] + [start]);
      NoneUsed(tags, start, end);
    }

    /** `add_node(heap->bins[b], x)` */
    method Enlist(b: int, x: int) returns (ghost k: int)
      requires 0 <= b < BIN_COUNT && BinsLinked(ram.bytes, heads, bins, binOf)
      requires Headers(ram.bytes, binOf.Keys + {x}) && x !in binOf
      modifies ram, this`heads, this`bins, this`binOf
      ensures BinsLinked(ram.bytes, heads, bins, binOf) && binOf == old(binOf)[x := b]
      ensures InsertionPoint(old(ram.bytes), old(bins[b]), Word(old(ram.bytes), x + SIZE_AT), k)
      ensures bins == old(bins)[b := Inserted(old(bins[b]), k, x)]
      ensures OnlyLinks(old(ram.bytes), ram.bytes, old(binOf).Keys + {x}, old(bins[b]) + [x])
    {
      hide Word, Inserted, OnlyLinks, Headers, Linked;
      ghost var d, s := binOf.Keys + {x}, bins[b];
      assert BinLinked(ram.bytes, heads[b], s, binOf, b);
      var head';
      head', k := AddNode(ram, heads[b], x, s, d);
      InsertedAmong(s, k, x, d);
      forall c | 0 <= c < BIN_COUNT && c != b
        ensures Linked(ram.bytes, heads[c], bins[c])
      {
        OtherBins(old(ram.bytes), ram.bytes, heads, bins, binOf, b, d, s + [x], c);
      }
      heads, bins, binOf := heads[b := head'], bins[b := Inserted(s, k, x)], binOf[x := b];
      forall c | 0 <= c < BIN_COUNT
        ensures BinLinked(ram.bytes, heads[c], bins[c], binOf, c)
      {
        assert old(BinLinked(ram.bytes, heads[c], bins[c], binOf, c));
      }
    }

    /** `remove_node(heap->bins[b], x)` */
    method Delist(b: int, x: int) returns (ghost k: int)
      requires 0 <= b < BIN_COUNT && BinsLinked(ram.bytes, heads, bins, binOf)
      requires Headers(ram.bytes, binOf.Keys) && x in binOf && binOf[x] == b
      modifies ram, this`heads, this`bins, this`binOf
      ensures BinsLinked(ram.bytes, heads, bins, binOf) && binOf == old(binOf) - {x}
      ensures 0 <= k < |old(bins[b])| && old(bins[b])[k] == x && bins == old(bins)[b := Without(old(bins[b]), k)]
      ensures OnlyLinks(old(ram.bytes), ram.bytes, old(binOf).Keys, old(bins[b]))
    {
      hide Word, Without, OnlyLinks, Headers, Linked;
      ghost var d, s := binOf.Keys, bins[b];
      assert BinLinked(ram.bytes, heads[b], s, binOf, b);
      k :| 0 <= k < |s| && s[k] == x;
      var head' := RemoveNode(ram, heads[b], x, s, k, d);
      WithoutAmong(s, k, d);
      forall c | 0 <= c < BIN_COUNT && c != b
        ensures Linked(ram.bytes, heads[c], bins[c])
      {
        OtherBins(old(ram.bytes), ram.bytes, heads, bins, binOf, b, d, s, c);
      }
      heads, bins, binOf := heads[b := head'], bins[b := Without(s, k)], binOf - {x};
      forall c | 0 <= c < BIN_COUNT
        ensures BinLinked(ram.bytes, heads[c], bins[c], binOf, c)
      {
        assert old(BinLinked(ram.bytes, heads[c], bins[c], binOf, c));
      }
    }

    /** The search of `heap_alloc`: from the bin of the requested size upwards, the first node that fits. It finds
        a smallest hole that fits, and fails exactly when no hole does. */
    method FindHole(size: int) returns (found: int, index: int)
      requires Sound() && 0 <= size
      ensures found == NULL <==> forall x :: x in tags && tags[x].hole ==> tags[x].size < size
      ensures found != NULL ==>
        && 0 <= index < BIN_COUNT && found in binOf && binOf[found] == index
        && found in tags && tags[found].hole && tags[found].size >= size
        && forall y :: y in tags && tags[y].hole && tags[y].size >= size ==> tags[found].size <= tags[y].size
    {
      hide Word, Linked, Continues, Preceded, BinIndex, BinsLinked;
      index := GetBinIndex(size);
      SmallerBins(tags, bins, binOf, size);
      found := SearchBin(index, size);
      while found == NULL && index + 1 < BIN_COUNT
        invariant 0 <= index < BIN_COUNT
        invariant found == NULL ==> forall x :: x in binOf && binOf[x] <= index ==> tags[x].size < size
        invariant found != NULL ==> Best(tags, binOf, found, index, size)
        decreases BIN_COUNT - index, found == NULL
      {
        index := index + 1;
        found := SearchBin(index, size);
      }
      if found != NULL {
        LargerBins(tags, bins, binOf, found, index, size);
      }
    }

    /** Writes the tail of the hole `x` as a hole of its own. */
    method CarveHole(x: int, size: int) returns (y: int)
      requires Sound() && x in tags && tags[x].hole && 0 <= size && tags[x].size - size > OVERHEAD + MIN_ALLOC
      modifies ram, this`tags, this`pred
      ensures y == x + OVERHEAD + size && y !in old(tags)
      ensures tags == SplitTags(old(tags), x, size) && pred == SplitPred(old(tags), old(pred), x, size)
      ensures Tiles(tags, pred, start, end) && TagsOk(ram.bytes, tags, x) && Word(ram.bytes, x) == 1
      ensures BinsLinked(ram.bytes, heads, bins, binOf)
      ensures forall z :: z in old(tags) ==> Word(ram.bytes, z + SIZE_AT) == old(tags)[z].size
      ensures KeepsUsed(old(ram.bytes), ram.bytes, old(tags))
      ensures |ram.bytes| == |old(ram.bytes)|
    {
      hide Word, BinsLinked, Tiles, TagOk, BinIndex, Sorted;
      TilesExtents(tags, pred, start, end);
      TagSize(ram.bytes, tags, NULL, x);
      SplitTiles(tags, pred, start, end, x, size);
      y := x + OVERHEAD + size;
      var foundSize := ram.Load(x + SIZE_AT);
      var rest := foundSize - size - OVERHEAD;
      WriteHole(ram, y, rest);
      SplitWritten(old(ram.bytes), ram.bytes, tags, start, end, x, size, heads, bins, binOf);
      forall z | z in tags
        ensures Word(ram.bytes, z + SIZE_AT) == tags[z].size
      {
        TagSize(old(ram.bytes), tags, NULL, z);
      }
      tags, pred := SplitTags(tags, x, size), SplitPred(tags, pred, x, size);
    }

    /** Lists the hole `y` just split off `x`, whose own header still has the old size. */
    method ListRest(x: int, size: int, y: int, ghost tags0: Tags)
      requires 0 < start && end <= |ram.bytes| && end < WORD_LIMIT && Tiles(tags, pred, start, end)
      requires x in tags0 && tags0[x].hole && y == x + OVERHEAD + size && y !in tags0 && tags == SplitTags(tags0, x, size)
      requires TagsOk(ram.bytes, tags, x) && Word(ram.bytes, x) == 1
      requires BinsLinked(ram.bytes, heads, bins, binOf) && BinsOk(tags0, bins, binOf, NULL) && NULL !in tags0
      requires forall z :: z in tags0 ==> Word(ram.bytes, z + SIZE_AT) == tags0[z].size
      modifies ram, this`heads, this`bins, this`binOf
      ensures TagsOk(ram.bytes, tags, x) && Word(ram.bytes, x) == 1
      ensures BinsLinked(ram.bytes, heads, bins, binOf) && BinsOk(tags, bins, binOf, x)
      ensures x in binOf && x in old(binOf) && binOf[x] == old(binOf)[x]
      ensures KeepsUsed(old(ram.bytes), ram.bytes, tags)
      ensures |ram.bytes| == |old(ram.bytes)|
    {
      hide Word, BinsLinked, Tiles, TagOk, BinIndex, BinsOk, OnlyLinks, Inserted, Headers;
      TilesExtents(tags, pred, start, end);
      NewHoleSet(tags0, tags, bins, binOf, x, size);
      TagSize(ram.bytes, tags, x, y);
      var rest := ram.Load(y + SIZE_AT);
      var b := GetBinIndex(rest);
      ghost var d := binOf.Keys + {y};
      ChunkHeaders(ram.bytes, tags, start, end, d);
      BinsShape(ram.bytes, heads, bins, binOf);
      ghost var k := Enlist(b, y);
      RelinkKeeps(old(ram.bytes), ram.bytes, tags, start, end, d, old(bins[b]) + [y]);
      RelinkKeepsHeader(old(ram.bytes), ram.bytes, tags, start, end, d, old(bins[b]) + [y], x);
      SplitBins(old(ram.bytes), tags0, old(bins), old(binOf), x, size, b, k);
    }

    /** Shrinks the header of `x` to its new size and gives it a footer (`create_foot`). */
    method ShrinkTo(x: int, size: int)
      requires 0 < start && end <= |ram.bytes| && end < WORD_LIMIT && Tiles(tags, pred, start, end)
      requires x in tags && tags[x] == Tag(size, true) && TagsOk(ram.bytes, tags, x) && Word(ram.bytes, x) == 1
      requires BinsLinked(ram.bytes, heads, bins, binOf) && binOf.Keys <= tags.Keys
      modifies ram
      ensures TagsOk(ram.bytes, tags, NULL) && BinsLinked(ram.bytes, heads, bins, binOf)
      ensures KeepsUsed(old(ram.bytes), ram.bytes, tags)
      ensures |ram.bytes| == |old(ram.bytes)|
    {
      hide Word, BinsLinked, Tiles, TagsOk;
      TilesExtents(tags, pred, start, end);
      ram.Store(x + SIZE_AT, size);
      ghost var m := ram.bytes;
      StoreKeeps(old(ram.bytes), m, tags, start, end, x, x + SIZE_AT, size);
      StoreKeepsBins(old(ram.bytes), m, tags, start, end, x, x + SIZE_AT, size, heads, bins, binOf);
      ram.Store(x + HEADER + size, x);
      StoreKeeps(m, ram.bytes, tags, start, end, x, x + HEADER + size, x);
      StoreKeepsBins(m, ram.bytes, tags, start, end, x, x + HEADER + size, x, heads, bins, binOf);
      TagsOkAll(ram.bytes, tags, x);
      KeepsUsedTwice(old(ram.bytes), m, ram.bytes, tags);
    }

    /** Marks the hole `x` as in use and takes it off its bin. */
    method Take(b: int, x: int)
      requires 0 < start && end <= |ram.bytes| && end < WORD_LIMIT && Tiles(tags, pred, start, end) && TagsOk(ram.bytes, tags, NULL)
      requires BinsLinked(ram.bytes, heads, bins, binOf) && BinsOk(tags, bins, binOf, x)
      requires x in tags && tags[x].hole && x in binOf && binOf[x] == b && 0 <= b < BIN_COUNT
      modifies ram, this`heads, this`bins, this`binOf, this`tags
      ensures tags == old(tags)[x := Tag(old(tags)[x].size, false)]
      ensures Tiles(tags, pred, start, end) && TagsOk(ram.bytes, tags, NULL)
      ensures BinsLinked(ram.bytes, heads, bins, binOf) && BinsOk(tags, bins, binOf, NULL)
      ensures KeepsUsed(old(ram.bytes), ram.bytes, old(tags))
      ensures |ram.bytes| == |old(ram.bytes)|
    {
      hide Word, BinsLinked, Tiles, TagsOk, BinsOk, TagOk, OnlyLinks, Without, Headers;
      TilesExtents(tags, pred, start, end);
      HolesAreChunks(tags, bins, binOf, x);
      BinsShape(ram.bytes, heads, bins, binOf);
      ghost var was := tags;
      ram.Store(x, 0);
      ghost var m := ram.bytes;
      StoreKeeps(old(ram.bytes), m, was, start, end, x, x, 0);
      StoreKeepsBins(old(ram.bytes), m, was, start, end, x, x, 0, heads, bins, binOf);
      tags := was[x := Tag(was[x].size, false)];
      Marked(old(ram.bytes), m, was, pred, start, end, x, false);
      ChunkHeaders(m, tags, start, end, binOf.Keys);
      ghost var k := Delist(b, x);
      RelinkKeepsAll(m, ram.bytes, tags, start, end, old(binOf).Keys, old(bins[b]));
      RelinkKeepsUsed(m, ram.bytes, was, start, end, old(bins), old(binOf), x, old(bins[b]));
      KeepsUsedTwice(old(ram.bytes), m, ram.bytes, was);
      TakenBins(was, old(bins), old(binOf), x, b, k, old(ram.bytes), old(heads));
    }

    /** Splits the hole `x` if it is worth it, and takes it: the middle of `heap_alloc`. */
    method Claim(x: int, b: int, size: int)
      requires Sound() && x in tags && tags[x].hole && x in binOf && binOf[x] == b && 0 <= size <= tags[x].size
      modifies ram, this`heads, this`bins, this`binOf, this`tags, this`pred
      ensures Sound() && tags == Claimed(old(tags), x, size) && Serves(old(tags), tags, x, size)
      ensures KeepsUsed(old(ram.bytes), ram.bytes, old(tags))
      ensures |ram.bytes| == |old(ram.bytes)|
    {
      hide Word, BinsLinked, Tiles, TagsOk, BinsOk, KeepsUsed, BinIndex, Serves;
      ghost var tags0, m0 := tags, ram.bytes;
      HeapFacts(ram.bytes, tags, pred, start, end, heads, bins, binOf, x);
      ClaimedServes(tags, x, size);
      var foundSize := ram.Load(x + SIZE_AT);
      if foundSize - size > OVERHEAD + MIN_ALLOC {
        var y := CarveHole(x, size);
        ghost var m1 := ram.bytes;
        ListRest(x, size, y, tags0);
        ghost var m2 := ram.bytes;
        HolesAreChunks(tags, bins, binOf, x);
        ShrinkTo(x, size);
        ghost var m3 := ram.bytes;
        Take(b, x);
        SplitKeepsUsed(m1, m2, tags0, x, size);
        SplitKeepsUsed(m2, m3, tags0, x, size);
        SplitKeepsUsed(m3, ram.bytes, tags0, x, size);
        KeepsUsedTwice(m0, m1, m2, tags0);
        KeepsUsedTwice(m0, m2, m3, tags0);
        KeepsUsedTwice(m0, m3, ram.bytes, tags0);
      } else {
        BinsOkWeaken(tags, bins, binOf, x);
        Take(b, x);
      }
    }

    /** `heap_alloc` */
    method Alloc(size: int) returns (r: AllocResult)
      requires Valid() && 0 <= size
      modifies ram, this`heads, this`bytesAllocated, this`bins, this`binOf, this`tags, this`pred
      ensures Sound() && (!r.NeedsExpand? ==> Valid())
      ensures r.NoFit? <==> forall x :: x in old(tags) && old(tags)[x].hole ==> old(tags)[x].size < size
      ensures r.NoFit? ==> unchanged(this) && unchanged(ram)
      ensures !r.NoFit? ==>
        var x := r.block - BLOCK_AT;
        && x in old(tags) && old(tags)[x].hole && old(tags)[x].size >= size
        && (forall y :: y in old(tags) && old(tags)[y].hole && old(tags)[y].size >= size ==> old(tags)[x].size <= old(tags)[y].size)
        && tags == Claimed(old(tags), x, size)
      ensures !r.NoFit? ==> Serves(old(tags), tags, r.block - 8, size)
      ensures KeepsUsed(old(ram.bytes), ram.bytes, old(tags))
      ensures !r.NoFit? ==> end in pred && pred[end] in tags && (r.NeedsExpand? <==> tags[pred[end]].size < 0x2000)
    {
      hide Word, BinsLinked, Tiles, TagsOk, BinsOk, BinIndex, UsedBytes, KeepsUsed, KeepsOthers, Serves;
      TilesExtents(tags, pred, start, end);
      var found, index := FindHole(size);
      if found == NULL {
        KeepsUsedSelf(ram.bytes, tags);
        return NoFit;
      }
      Claim(found, index, size);
      ghost var m1 := ram.bytes;
      WildernessFacts(ram.bytes, tags, pred, start, end);
      var wild := ram.Load(end - 4);
      var wildSize := ram.Load(wild + SIZE_AT);
      if wildSize < MIN_WILDERNESS {
        return NeedsExpand(found + BLOCK_AT);
      }
      Finish(found);
      ClaimedKeeps(m1, ram.bytes, old(tags), start, end, found, size);
      KeepsUsedTwice(old(ram.bytes), m1, ram.bytes, old(tags));
      ClaimedBytes(old(tags), start, end, found, size);
      r := Allocated(found + BLOCK_AT);
    }

    /** The end of `heap_alloc`: clears the links of the block and counts it. */
    method Finish(x: int)
      requires Sound() && x in tags && !tags[x].hole
      modifies ram, this`bytesAllocated
      ensures Sound() && bytesAllocated == old(bytesAllocated) + tags[x].size
      ensures KeepsOthers(old(ram.bytes), ram.bytes, tags, x)
    {
      hide Word, BinsLinked, Tiles, TagsOk, BinsOk, BinIndex, UsedBytes;
      HeapFacts(ram.bytes, tags, pred, start, end, heads, bins, binOf, x);
      ram.Store(x + PREV_AT, NULL);
      ghost var m := ram.bytes;
      PayloadStore(old(ram.bytes), m, tags, pred, start, end, x, x + PREV_AT, NULL, heads, bins, binOf);
      ram.Store(x + NEXT_AT, NULL);
      PayloadStore(m, ram.bytes, tags, pred, start, end, x, x + NEXT_AT, NULL, heads, bins, binOf);
      TagSize(ram.bytes, tags, NULL, x);
      var taken := ram.Load(x + SIZE_AT);
      bytesAllocated := bytesAllocated + taken;
    }

    // ----- Freeing -----

    /** Everything is in order, except that the chunk `h` is on its way to becoming a hole: it is not listed, and
        its hole flag in memory may be either. Until it is released it counts as in use. */
    ghost predicate Loose(h: int)
      reads this, ram
    {
      && 0 < start && end == start + HEAP_INIT_SIZE && end <= |ram.bytes| && end < WORD_LIMIT
      && Tiles(tags, pred, start, end) && TagsOk(ram.bytes, tags, h) && h in tags && !tags[h].hole
      && TagBody(ram.bytes, h, tags[h])
      && BinsLinked(ram.bytes, heads, bins, binOf) && BinsOk(tags, bins, binOf, NULL)
    }

    /** Takes a neighbour of the loose chunk off its bin; it stays a hole in memory. */
    method Unlist(h: int, x: int)
      requires Loose(h) && x in tags && tags[x].hole
      modifies ram, this`heads, this`bins, this`binOf
      ensures TagsOk(ram.bytes, tags, h) && TagBody(ram.bytes, h, tags[h])
      ensures BinsLinked(ram.bytes, heads, bins, binOf)
      ensures BinsOk(tags[x := Tag(tags[x].size, false)], bins, binOf, NULL)
      ensures KeepsUsed(old(ram.bytes), ram.bytes, tags) && |ram.bytes| == |old(ram.bytes)|
    {
      hide Word, BinsLinked, Tiles, TagsOk, BinsOk, TagBody, OnlyLinks, Without, Headers, BinIndex;
      TilesExtents(tags, pred, start, end);
      LooseFacts(ram.bytes, tags, start, end, h, bins, binOf, x);
      ChunkHeaders(ram.bytes, tags, start, end, binOf.Keys);
      BinsShape(ram.bytes, heads, bins, binOf);
      var size := ram.Load(x + SIZE_AT);
      var b := GetBinIndex(size);
      ghost var k := Delist(b, x);
      RelinkKeepsLoose(old(ram.bytes), ram.bytes, tags, start, end, h, old(binOf).Keys, old(bins[b]));
      RelinkKeepsUsed(old(ram.bytes), ram.bytes, tags, start, end, old(bins), old(binOf), NULL, old(bins[b]));
      BinsOkWeaken(tags, old(bins), old(binOf), x);
      TakenBins(tags, old(bins), old(binOf), x, b, k, old(ram.bytes), old(heads));
    }

    /** The first half of `heap_free`'s coalescing: the hole before the loose chunk swallows it. */
    method AbsorbIntoPrev(x: int, prev: int)
      requires Loose(x) && prev in tags && tags[prev].hole && End(tags, prev) == x
      modifies ram, this`heads, this`bins, this`binOf, this`tags, this`pred
      ensures Loose(prev) && tags == Merged(old(tags), prev, x) && pred == MergePred(old(tags), old(pred), prev, x)
      ensures KeepsUsed(old(ram.bytes), ram.bytes, Freed(old(tags), x)) && |ram.bytes| == |old(ram.bytes)|
    {
      hide Word, BinsLinked, Tiles, BinsOk, BinIndex, KeepsUsed;
      ghost var tags0, m0 := tags, ram.bytes;
      TilesExtents(tags, pred, start, end);
      LooseFacts(ram.bytes, tags, start, end, x, bins, binOf, prev);
      Unlist(x, prev);
      ghost var m1 := ram.bytes;
      MergedTiles(tags, pred, start, end, prev, x);
      MergedFacts(m1, tags, heads, bins, binOf, prev, x, x, prev);
      TagSize(m1, tags, x, prev);
      var prevSize := ram.Load(prev + SIZE_AT);
      var size := ram.Load(x + SIZE_AT);
      tags, pred := Merged(tags, prev, x), MergePred(tags, pred, prev, x);
      GrowPrev(prev, x, prevSize, size);
      MergedKeeps(m1, ram.bytes, tags0, prev, x, x);
      UsedKeepsFreed(m0, m1, tags0, x);
      KeepsUsedTwice(m0, m1, ram.bytes, Freed(tags0, x));
    }

    /** The two stores that merge a chunk into the one before it. */
    method GrowPrev(prev: int, x: int, prevSize: int, size: int)
      requires 0 < start && end <= |ram.bytes| && end < WORD_LIMIT && Extents(tags, start, end)
      requires prev in tags && 0 <= prevSize && 0 <= size && x == prev + OVERHEAD + prevSize && tags[prev].size == prevSize + OVERHEAD + size
      requires TagsOk(ram.bytes, tags, prev) && BinsLinked(ram.bytes, heads, bins, binOf) && binOf.Keys <= tags.Keys
      modifies ram
      ensures TagsOk(ram.bytes, tags, prev) && BinsLinked(ram.bytes, heads, bins, binOf) && TagBody(ram.bytes, prev, tags[prev])
      ensures KeepsUsed(old(ram.bytes), ram.bytes, Freed(tags, prev)) && |ram.bytes| == |old(ram.bytes)|
    {
      hide Word, BinsLinked, TagsOk, KeepsUsed;
      StoreIn(prev, prev + SIZE_AT, prevSize + OVERHEAD + size);
      ghost var m := ram.bytes;
      StoreIn(prev, x + HEADER + size, prev);
      KeepsUsedTwice(old(ram.bytes), m, ram.bytes, Freed(tags, prev));
    }

    /** The second half: the loose chunk swallows the hole after it. */
    method AbsorbNext(h: int, next: int)
      requires Loose(h) && next in tags && tags[next].hole && End(tags, h) == next
      modifies ram, this`heads, this`bins, this`binOf, this`tags, this`pred
      ensures Loose(h) && tags == Merged(old(tags), h, next) && pred == MergePred(old(tags), old(pred), h, next)
      ensures KeepsUsed(old(ram.bytes), ram.bytes, Freed(old(tags), h)) && |ram.bytes| == |old(ram.bytes)|
    {
      hide Word, BinsLinked, Tiles, BinsOk, BinIndex, KeepsUsed;
      ghost var tags0, m0 := tags, ram.bytes;
      TilesExtents(tags, pred, start, end);
      LooseFacts(ram.bytes, tags, start, end, h, bins, binOf, next);
      Unlist(h, next);
      ghost var m1 := ram.bytes;
      MergedTiles(tags, pred, start, end, h, next);
      MergedFacts(m1, tags, heads, bins, binOf, h, next, h, next);
      TagSize(m1, tags, h, next);
      var size := ram.Load(h + SIZE_AT);
      var nextSize := ram.Load(next + SIZE_AT);
      tags, pred := Merged(tags, h, next), MergePred(tags, pred, h, next);
      GrowOver(h, next, size, nextSize);
      MergedKeeps(m1, ram.bytes, tags0, h, next, h);
      UsedKeepsFreed(m0, m1, tags0, h);
      KeepsUsedTwice(m0, m1, ram.bytes, Freed(tags0, h));
    }

    /** The five stores that merge a chunk with the one after it: the swallowed header and footer are wiped. */
    method GrowOver(h: int, next: int, size: int, nextSize: int)
      requires 0 < start && end <= |ram.bytes| && end < WORD_LIMIT && Extents(tags, start, end)
      requires h in tags && 0 <= nextSize && 0 <= size && next == h + OVERHEAD + size && tags[h].size == size + OVERHEAD + nextSize
      requires TagsOk(ram.bytes, tags, h) && BinsLinked(ram.bytes, heads, bins, binOf) && binOf.Keys <= tags.Keys
      modifies ram
      ensures TagsOk(ram.bytes, tags, h) && BinsLinked(ram.bytes, heads, bins, binOf) && TagBody(ram.bytes, h, tags[h])
      ensures KeepsUsed(old(ram.bytes), ram.bytes, Freed(tags, h)) && |ram.bytes| == |old(ram.bytes)|
    {
      hide Word, BinsLinked, TagsOk, KeepsUsed;
      ghost var m1, f := ram.bytes, Freed(tags, h);
      StoreIn(h, h + SIZE_AT, size + OVERHEAD + nextSize);
      ghost var m2 := ram.bytes;
      StoreIn(h, next + HEADER + nextSize, NULL);
      ghost var m3 := ram.bytes;
      KeepsUsedTwice(m1, m2, m3, f);
      StoreIn(h, next + SIZE_AT, 0);
      ghost var m4 := ram.bytes;
      KeepsUsedTwice(m1, m3, m4, f);
      StoreIn(h, next, 0);
      ghost var m5 := ram.bytes;
      KeepsUsedTwice(m1, m4, m5, f);
      StoreIn(h, h + HEADER + (size + OVERHEAD + nextSize), h);
      KeepsUsedTwice(m1, m5, ram.bytes, f);
    }

    /** The end of `heap_free`: the loose chunk becomes a listed hole. */
    method Release(h: int)
      requires Loose(h)
      modifies ram, this`heads, this`bins, this`binOf, this`tags
      ensures Sound() && tags == Freed(old(tags), h)
      ensures KeepsUsed(old(ram.bytes), ram.bytes, tags) && |ram.bytes| == |old(ram.bytes)|
    {
      hide Word, BinsLinked, Tiles, BinsOk, BinIndex, KeepsUsed, TagOk, OnlyLinks, Inserted, Headers, InsertionPoint;
      ghost var was, m0 := tags, ram.bytes;
      TilesExtents(tags, pred, start, end);
      HolesAreChunks(tags, bins, binOf, NULL);
      StoreIn(h, h, 1);
      ghost var m1 := ram.bytes;
      MarkTiles(tags, pred, start, end, h, true);
      tags := Freed(tags, h);
      TilesExtents(tags, pred, start, end);
      FreedTag(m0, m1, was, h);
      NewHole(was, bins, binOf, h);
      BinsShape(m1, heads, bins, binOf);
      var size := ram.Load(h + SIZE_AT);
      var b := GetBinIndex(size);
      ghost var d := binOf.Keys + {h};
      ChunkHeaders(m1, tags, start, end, d);
      ghost var k := Enlist(b, h);
      RelinkKeeps(m1, ram.bytes, tags, start, end, d, old(bins[b]) + [h]);
      RelinkKeepsAll(m1, ram.bytes, tags, start, end, d, old(bins[b]) + [h]);
      BinMembers(m1, old(heads), old(bins), old(binOf), b);
      ReleasedBins(m1, was, old(bins), old(binOf), h, b, k);
      KeepsUsedTwice(m0, m1, ram.bytes, tags);
    }

    /** `heap_free`: the block starts 8 bytes into its chunk. The chunk after it is read unless it is the first. */
    method Free(p: int)
      requires Valid()
      requires p != NULL ==> p - BLOCK_AT in tags && !tags[p - BLOCK_AT].hole
      requires p != NULL ==> p - BLOCK_AT == start || End(tags, p - BLOCK_AT) != end
      modifies ram, this`heads, this`bytesAllocated, this`bins, this`binOf, this`tags, this`pred
      ensures Valid()
      ensures p == NULL ==> unchanged(this) && unchanged(ram)
      ensures p != NULL ==> tags == Coalesced(old(tags), old(pred), start, end, p - BLOCK_AT)
      ensures p != NULL ==> KeepsUsed(old(ram.bytes), ram.bytes, Freed(old(tags), p - BLOCK_AT))
      ensures |ram.bytes| == |old(ram.bytes)|
    {
      hide Word, BinsLinked, Tiles, BinsOk, BinIndex, KeepsUsed, TagOk, UsedBytes, Coalesced;
      if p == NULL {
        return;
      }
      var head := p - BLOCK_AT;
      HeapFacts(ram.bytes, tags, pred, start, end, heads, bins, binOf, head);
      var size := ram.Load(head + SIZE_AT);
      bytesAllocated := bytesAllocated - size;
      FreeChunk(head);
      FreedBytes(old(tags), old(pred), start, end, head);
    }

    method FreeChunk(x: int)
      requires Sound() && x in tags && !tags[x].hole && (x == start || End(tags, x) != end)
      modifies ram, this`heads, this`bins, this`binOf, this`tags, this`pred
      ensures Sound() && tags == Coalesced(old(tags), old(pred), start, end, x)
      ensures KeepsUsed(old(ram.bytes), ram.bytes, Freed(old(tags), x)) && |ram.bytes| == |old(ram.bytes)|
    {
      hide Word, BinsLinked, Tiles, BinsOk, BinIndex, KeepsUsed, TagOk;
      HeapFacts(ram.bytes, tags, pred, start, end, heads, bins, binOf, x);
      BecomesLoose(ram.bytes, tags, x);
      if x == start {
        Release(x);
        return;
      }
      Neighbours(ram.bytes, tags, pred, start, end, x);
      var size := ram.Load(x + SIZE_AT);
      var next := x + HEADER + size + 4;
      var prev := ram.Load(x - 4);
      var head := x;
      var prevHole := ram.Load(prev);
      if prevHole != 0 {
        AbsorbIntoPrev(x, prev);
        head := prev;
      } else {
        KeepsUsedSelf(ram.bytes, Freed(tags, x));
      }
      ghost var m1, tags1 := ram.bytes, tags;
      NextAfterMerge(old(tags), tags, start, end, prev, x, next, head);
      NextFlag(ram.bytes, tags, pred, start, end, head, next);
      var nextHole := ram.Load(next);
      if nextHole != 0 {
        AbsorbNext(head, next);
      } else {
        KeepsUsedSelf(m1, Freed(tags, head));
      }
      ghost var m2, tags2 := ram.bytes, tags;
      Release(head);
      MergedStill(m1, m2, old(tags), tags1, x, head);
      ReleasedStill(m2, ram.bytes, tags1, tags2, next, head);
      MergedStill(m2, ram.bytes, old(tags), tags1, x, head);
      KeepsUsedTwice(old(ram.bytes), m1, m2, Freed(old(tags), x));
      KeepsUsedTwice(old(ram.bytes), m2, ram.bytes, Freed(old(tags), x));
    }

    /** A store inside the loose chunk `c`, off its link fields. */
    method StoreIn(c: int, a: int, v: int)
      requires 0 < start && end <= |ram.bytes| && Extents(tags, start, end) && c in tags && TagsOk(ram.bytes, tags, c)
      requires BinsLinked(ram.bytes, heads, bins, binOf) && binOf.Keys <= tags.Keys && 0 <= v < WORD_LIMIT
      requires c <= a && a + 4 <= End(tags, c) && (a + 4 <= c + NEXT_AT || c + HEADER <= a)
      modifies ram
      ensures Stored(old(ram.bytes), ram.bytes, a, v) && TagsOk(ram.bytes, tags, c)
      ensures BinsLinked(ram.bytes, heads, bins, binOf)
      ensures KeepsUsed(old(ram.bytes), ram.bytes, Freed(tags, c))
    {
      hide Word, BinsLinked;
      ram.Store(a, v);
      StoreKeeps(old(ram.bytes), ram.bytes, tags, start, end, c, a, v);
      StoreKeepsBins(old(ram.bytes), ram.bytes, tags, start, end, c, a, v, heads, bins, binOf);
    }

    /** `get_best_fit` on one bin. */
    method SearchBin(b: int, size: int) returns (found: int)
      requires Sound() && 0 <= b < BIN_COUNT
      ensures found == NULL ==> forall x :: x in binOf && binOf[x] == b ==> x in tags && tags[x].size < size
      ensures found != NULL ==>
        && found in binOf && binOf[found] == b && found in tags && tags[found].size >= size
        && forall x :: x in binOf && binOf[x] == b ==> x in tags && (tags[x].size < size || tags[found].size <= tags[x].size)
    {
      hide Word, Linked, Continues, Preceded, BinIndex, Sorted;
      TilesExtents(tags, pred, start, end);
      HolesAreChunks(tags, bins, binOf, NULL);
      ChunkHeaders(ram.bytes, tags, start, end, binOf.Keys);
      ghost var s := bins[b];
      assert BinLinked(ram.bytes, heads[b], s, binOf, b) && Sorted(tags, s, NULL);
      BinSizes(ram.bytes, tags, s, binOf, b);
      hide Tiles, TagsOk, BinsLinked, BinsOk;
      ghost var k;
      found, k := GetBestFit(ram, heads[b], size, s, binOf.Keys);
      BestOfBin(tags, s, binOf, b, size, k, ram.bytes);
    }
  }

  /** A smallest node of bin `index` that fits, none fitting in the bins before it. */
  ghost predicate Best(tags: Tags, binOf: map<int, int>, found: int, index: int, size: int) {
    && found in binOf && binOf[found] == index && found in tags && tags[found].size >= size
    && (forall x :: x in binOf && binOf[x] < index ==> x in tags && tags[x].size < size)
    && (forall x :: x in binOf && binOf[x] == index ==> x in tags && (tags[x].size < size || tags[found].size <= tags[x].size))
  }

  lemma SmallerBins(tags: Tags, bins: seq<seq<int>>, binOf: map<int, int>, size: int)
    requires BinsOk(tags, bins, binOf, NULL) && NULL !in tags
    ensures forall x :: x in binOf && binOf[x] < BinIndex(size) ==> x in tags && tags[x].size < size
  {
    hide BinIndex;
    forall x | x in binOf && binOf[x] < BinIndex(size)
      ensures x in tags && tags[x].size < size
    {
      if tags[x].size >= size {
        BinMonotone(size, tags[x].size);
      }
    }
  }

  lemma LargerBins(tags: Tags, bins: seq<seq<int>>, binOf: map<int, int>, found: int, index: int, size: int)
    requires BinsOk(tags, bins, binOf, NULL) && NULL !in tags && Best(tags, binOf, found, index, size)
    ensures forall y :: y in tags && tags[y].hole && tags[y].size >= size ==> tags[found].size <= tags[y].size
  {
    hide BinIndex;
    forall y | y in tags && tags[y].hole && tags[y].size >= size
      ensures tags[found].size <= tags[y].size
    {
      if tags[y].size < tags[found].size {
        BinMonotone(tags[y].size, tags[found].size);
      }
    }
  }

  lemma OneChunk(m: seq<byte>, tags: Tags, pred: map<int, int>, start: int, end: int, size: int)
    requires 0 < start && end == start + OVERHEAD + size && size >= 0
    requires tags == map[start := Tag(size, true)] && pred == map[end := start]
    requires Word(m, start) == 1 && Word(m, start + SIZE_AT) == size && Word(m, start + HEADER + size) == start
    ensures Tiles(tags, pred, start, end) && TagsOk(m, tags, NULL)
  {
  }

  lemma OneHole(tags: Tags, bins: seq<seq<int>>, binOf: map<int, int>, b: int, x: int, k: int)
    requires x in tags && tags.Keys == {x} && tags[x].hole && b == BinIndex(tags[x].size) && x != NULL
    requires binOf == map[x := b] && k == 0 && bins == seq(BIN_COUNT, _ => [])[b := Inserted([], k, x)]
    ensures BinsOk(tags, bins, binOf, NULL)
  {
  }

  lemma NoneUsed(tags: Tags, lo: int, hi: int)
    requires forall x :: x in tags ==> tags[x].hole
    ensures UsedBytes(tags, lo, hi) == 0
    decreases hi - lo
  {
  }

  lemma EmptyBins(m: seq<byte>, heads: seq<int>, bins: seq<seq<int>>, binOf: map<int, int>)
    requires heads == seq(BIN_COUNT, _ => NULL) && bins == seq(BIN_COUNT, _ => []) && binOf == map[]
    ensures BinsLinked(m, heads, bins, binOf)
  {
  }

  lemma HolesAreChunks(tags: Tags, bins: seq<seq<int>>, binOf: map<int, int>, except: int)
    requires BinsOk(tags, bins, binOf, except)
    ensures binOf.Keys <= tags.Keys
  {
    forall x | x in binOf.Keys
      ensures x in tags
    {
      assert x in binOf;
    }
  }

  lemma TilesExtents(tags: Tags, pred: map<int, int>, start: int, end: int)
    requires Tiles(tags, pred, start, end)
    ensures Extents(tags, start, end)
  {
  }

  lemma TagSize(m: seq<byte>, tags: Tags, except: int, x: int)
    requires TagsOk(m, tags, except) && x in tags && x != except
    ensures Word(m, x + SIZE_AT) == tags[x].size && Word(m, x) == (if tags[x].hole then 1 else 0)
    ensures Word(m, x + HEADER + tags[x].size) == x
  {
  }

  /** The bytes a split writes first: header and footer of the new hole, all inside the old one. */
  lemma SplitWritten(m: seq<byte>, m': seq<byte>, tags: Tags, start: int, end: int, x: int, size: int,
                     heads: seq<int>, bins: seq<seq<int>>, binOf: map<int, int>)
    requires Extents(tags, start, end) && x in tags && tags[x].hole && 0 <= size && size + OVERHEAD <= tags[x].size
    requires TagsOk(m, tags, NULL) && BinsLinked(m, heads, bins, binOf) && |m'| == |m| && 0 < start
    requires forall z :: z in binOf ==> z in tags
    requires var y, rest := x + OVERHEAD + size, tags[x].size - size - OVERHEAD;
      && TagOk(m', y, Tag(rest, true))
      && forall k :: 0 <= k < |m| && !(y <= k < y + NEXT_AT) && !(y + HEADER + rest <= k < y + OVERHEAD + rest) ==> m'[k] == m[k]
    ensures BinsLinked(m', heads, bins, binOf) && KeepsUsed(m, m', tags)
    ensures TagsOk(m', SplitTags(tags, x, size), x)
    ensures Word(m', x) == Word(m, x)
    ensures forall z :: z in tags ==> Word(m', z + SIZE_AT) == Word(m, z + SIZE_AT)
  {
    hide Word, BinsLinked;
    var y, rest := x + OVERHEAD + size, tags[x].size - size - OVERHEAD;
    forall z | z in tags && z != x
      ensures Agree(m, m', z, End(tags, z)) && TagOk(m', z, tags[z])
      ensures Word(m', z + SIZE_AT) == Word(m, z + SIZE_AT)
    {
      assert End(tags, z) <= x || End(tags, x) <= z;
      TagFrame(m, m', z, tags[z]);
      AgreeWord(m, m', z, End(tags, z), z + SIZE_AT);
    }
    assert Agree(m, m', x, x + HEADER);
    AgreeWord(m, m', x, x + HEADER, x);
    AgreeWord(m, m', x, x + HEADER, x + SIZE_AT);
    forall z | z in binOf
      ensures Agree(m, m', z + NEXT_AT, z + HEADER)
    {
    }
    LinksKeepBins(m, m', heads, bins, binOf);
  }

  lemma NewHoleSet(tags: Tags, tags': Tags, bins: seq<seq<int>>, binOf: map<int, int>, x: int, size: int)
    requires x in tags && tags[x].hole && tags' == SplitTags(tags, x, size) && BinsOk(tags, bins, binOf, NULL)
    requires x + OVERHEAD + size !in tags
    ensures var y := x + OVERHEAD + size;
      && x in binOf && y !in binOf && binOf.Keys + {y} <= tags'.Keys
      && forall z :: z in binOf.Keys + {y} ==> z in tags' && tags'[z].hole
  {
    hide BinIndex;
    HolesAreChunks(tags, bins, binOf, NULL);
  }

  lemma BinsShape(m: seq<byte>, heads: seq<int>, bins: seq<seq<int>>, binOf: map<int, int>)
    requires BinsLinked(m, heads, bins, binOf)
    ensures |heads| == BIN_COUNT && |bins| == BIN_COUNT
  {
  }

  /** Listing the hole split off `x` in its bin leaves only `x` out of place. */
  lemma SplitBins(m: seq<byte>, tags: Tags, bins: seq<seq<int>>, binOf: map<int, int>, x: int, size: int, b: int, k: int)
    requires BinsOk(tags, bins, binOf, NULL) && NULL !in tags && x in tags && tags[x].hole
    requires x + OVERHEAD + size !in tags && x + OVERHEAD + size != NULL
    requires var y, rest := x + OVERHEAD + size, tags[x].size - size - OVERHEAD;
      && b == BinIndex(rest) && InsertionPoint(m, bins[b], rest, k)
    requires forall z :: z in tags ==> Word(m, z + SIZE_AT) == tags[z].size
    ensures var y, tags' := x + OVERHEAD + size, SplitTags(tags, x, size);
      BinsOk(tags', bins[b := Inserted(bins[b], k, y)], binOf[y := b], x)
  {
    hide Word, BinIndex, Inserted;
    var y, rest := x + OVERHEAD + size, tags[x].size - size - OVERHEAD;
    var tags1, tags' := tags[y := Tag(rest, true)], SplitTags(tags, x, size);
    var s, bins', binOf' := bins[b], bins[b := Inserted(bins[b], k, y)], binOf[y := b];
    assert Sorted(tags, s, NULL);
    assert forall i :: 0 <= i < |s| ==> s[i] in tags && s[i] != y;
    InsertSorted(tags1, s, k, y);
    forall c | 0 <= c < BIN_COUNT
      ensures Sorted(tags', bins'[c], x)
    {
      assert Sorted(tags, bins[c], NULL);
    }
  }

  /** Taking the one misplaced node off its bin puts the bins in order. */
  lemma TakenBins(tags: Tags, bins: seq<seq<int>>, binOf: map<int, int>, x: int, b: int, k: int, m: seq<byte>, heads: seq<int>)
    requires BinsOk(tags, bins, binOf, x) && BinsLinked(m, heads, bins, binOf) && x in tags && x in binOf
    requires 0 <= b < BIN_COUNT && binOf[x] == b && 0 <= k < |bins[b]| && bins[b][k] == x
    ensures BinsOk(tags[x := Tag(tags[x].size, false)], bins[b := Without(bins[b], k)], binOf - {x}, NULL)
  {
    hide Word, BinIndex, Without, Linked;
    var tags', bins' := tags[x := Tag(tags[x].size, false)], bins[b := Without(bins[b], k)];
    assert BinLinked(m, heads[b], bins[b], binOf, b) && Sorted(tags, bins[b], x);
    RemoveSorted(tags, bins[b], k, x);
    forall c | 0 <= c < BIN_COUNT
      ensures Sorted(tags', bins'[c], NULL)
    {
      assert Sorted(tags, bins[c], x) && BinLinked(m, heads[c], bins[c], binOf, c);
      if c != b {
        assert forall i :: 0 <= i < |bins[c]| ==> bins[c][i] in bins[c] && bins[c][i] != x;
      }
    }
  }

  lemma HeapFacts(m: seq<byte>, tags: Tags, pred: map<int, int>, start: int, end: int,
                  heads: seq<int>, bins: seq<seq<int>>, binOf: map<int, int>, x: int)
    requires 0 < start && Tiles(tags, pred, start, end) && TagsOk(m, tags, NULL)
    requires BinsLinked(m, heads, bins, binOf) && BinsOk(tags, bins, binOf, NULL) && x in tags
    ensures Extents(tags, start, end) && NULL !in tags && binOf.Keys <= tags.Keys
    ensures start <= x && End(tags, x) <= end && tags[x].size >= 0
    ensures Word(m, x + SIZE_AT) == tags[x].size && (x in binOf <==> tags[x].hole)
    ensures x in binOf ==> 0 <= binOf[x] < BIN_COUNT
  {
    hide Word, BinIndex;
    TagSize(m, tags, NULL, x);
    HolesAreChunks(tags, bins, binOf, NULL);
  }

  lemma WildernessFacts(m: seq<byte>, tags: Tags, pred: map<int, int>, start: int, end: int)
    requires 0 < start && Tiles(tags, pred, start, end) && TagsOk(m, tags, NULL)
    ensures end in pred && pred[end] in tags && Word(m, end - 4) == pred[end] && start <= pred[end] && End(tags, pred[end]) == end
    ensures Word(m, pred[end] + SIZE_AT) == tags[pred[end]].size && tags[pred[end]].size >= 0
  {
  }

  lemma BinsOkWeaken(tags: Tags, bins: seq<seq<int>>, binOf: map<int, int>, x: int)
    requires BinsOk(tags, bins, binOf, NULL) && NULL !in tags
    ensures BinsOk(tags, bins, binOf, x)
  {
  }

  /** A split moves no chunk in use. */
  lemma SplitKeepsUsed(m: seq<byte>, m': seq<byte>, tags: Tags, x: int, size: int)
    requires x in tags && tags[x].hole && KeepsUsed(m, m', SplitTags(tags, x, size)) && x + OVERHEAD + size !in tags
    ensures KeepsUsed(m, m', tags)
  {
    var tags' := SplitTags(tags, x, size);
    forall z | z in tags && !tags[z].hole
      ensures Agree(m, m', z, End(tags, z))
    {
      assert z in tags' && tags'[z] == tags[z];
    }
  }

  /** Clearing the links of a block just taken touches nothing but that block. */
  lemma PayloadStore(m: seq<byte>, m': seq<byte>, tags: Tags, pred: map<int, int>, start: int, end: int,
                     x: int, a: int, v: int, heads: seq<int>, bins: seq<seq<int>>, binOf: map<int, int>)
    requires 0 < start && Tiles(tags, pred, start, end) && TagsOk(m, tags, NULL)
    requires BinsLinked(m, heads, bins, binOf) && BinsOk(tags, bins, binOf, NULL)
    requires x in tags && !tags[x].hole && Stored(m, m', a, v) && x + NEXT_AT <= a && a + 4 <= x + HEADER
    ensures TagsOk(m', tags, NULL) && BinsLinked(m', heads, bins, binOf)
    ensures KeepsOthers(m, m', tags, x)
  {
    TilesExtents(tags, pred, start, end);
    hide Word, BinsLinked, Tiles, BinIndex, Sorted, BinsOk;
    TagSize(m, tags, NULL, x);
    StoreKeeps(m, m', tags, start, end, x, a, v);
    assert TagOk(m, x, tags[x]) && TagOk(m', x, tags[x]);
    TagsOkWeaken(m, tags, x);
    TagsOkAll(m', tags, x);
    OthersKeepBins(m, m', tags, start, end, x, heads, bins, binOf);
  }

  /** Writing inside a used chunk leaves the bins alone. */
  lemma OthersKeepBins(m: seq<byte>, m': seq<byte>, tags: Tags, start: int, end: int, x: int,
                       heads: seq<int>, bins: seq<seq<int>>, binOf: map<int, int>)
    requires BinsLinked(m, heads, bins, binOf) && BinsOk(tags, bins, binOf, NULL) && Extents(tags, start, end)
    requires x in tags && !tags[x].hole && |m'| == |m| && forall k :: 0 <= k < |m| && !(x <= k < End(tags, x)) ==> m'[k] == m[k]
    ensures BinsLinked(m', heads, bins, binOf)
  {
    hide BinsOk, BinsLinked, Word;
    HolesElsewhere(tags, bins, binOf, x, start, end);
    LinksKeepBins(m, m', heads, bins, binOf);
  }

  /** The links of the listed holes lie outside the chunk of a used block. */
  lemma HolesElsewhere(tags: Tags, bins: seq<seq<int>>, binOf: map<int, int>, x: int, start: int, end: int)
    requires BinsOk(tags, bins, binOf, NULL) && x in tags && !tags[x].hole && Extents(tags, start, end)
    ensures forall z :: z in binOf ==> z in tags && z != x && tags[z].size >= 0 && (End(tags, x) <= z || End(tags, z) <= x)
  {
  }

  /** The nodes of a bin are chunks whose sizes stand in memory. */
  lemma BinSizes(m: seq<byte>, tags: Tags, s: seq<int>, binOf: map<int, int>, b: int)
    requires TagsOk(m, tags, NULL) && (forall x :: x in s <==> x in binOf && binOf[x] == b) && binOf.Keys <= tags.Keys && NULL !in tags
    ensures forall i :: 0 <= i < |s| ==> s[i] in tags && s[i] in binOf && s[i] != NULL && Word(m, s[i] + SIZE_AT) == tags[s[i]].size
  {
    hide Word;
    forall i | 0 <= i < |s|
      ensures s[i] in tags && s[i] in binOf && s[i] != NULL && Word(m, s[i] + SIZE_AT) == tags[s[i]].size
    {
      assert s[i] in s;
      assert TagOk(m, s[i], tags[s[i]]);
    }
  }

  /** In a sorted bin the first node that fits is a smallest one that does. */
  lemma BestOfBin(tags: Tags, s: seq<int>, binOf: map<int, int>, b: int, size: int, k: int, m: seq<byte>)
    requires Sorted(tags, s, NULL) && (forall x :: x in s <==> x in binOf && binOf[x] == b) && 0 <= k <= |s|
    requires forall i :: 0 <= i < |s| ==> s[i] in tags && s[i] != NULL && Word(m, s[i] + SIZE_AT) == tags[s[i]].size
    requires forall i :: 0 <= i < k ==> Word(m, s[i] + SIZE_AT) < size
    ensures forall x :: x in binOf && binOf[x] == b ==> x in tags && (tags[x].size < size || (k < |s| && tags[s[k]].size <= tags[x].size))
  {
    hide Word;
    forall x | x in binOf && binOf[x] == b
      ensures x in tags && (tags[x].size < size || (k < |s| && tags[s[k]].size <= tags[x].size))
    {
      assert x in s;
      var i :| 0 <= i < |s| && s[i] == x;
      assert k < i ==> tags[s[k]].size <= tags[s[i]].size;
    }
  }

  lemma TagsOkWeaken(m: seq<byte>, tags: Tags, x: int)
    requires TagsOk(m, tags, NULL) && NULL !in tags
    ensures TagsOk(m, tags, x)
  {
  }

  /** Every chunk but `x` keeps every byte. */
  ghost predicate KeepsOthers(m: seq<byte>, m': seq<byte>, tags: Tags, x: int) {
    |m'| == |m| && forall z :: z in tags && z != x ==> Agree(m, m', z, End(tags, z))
  }

  lemma ClaimedKeeps(m: seq<byte>, m': seq<byte>, tags: Tags, start: int, end: int, x: int, size: int)
    requires x in tags && tags[x].hole && 0 <= size && Extents(tags, start, end) && KeepsOthers(m, m', Claimed(tags, x, size), x)
    ensures KeepsUsed(m, m', tags)
  {
    var tags' := Claimed(tags, x, size);
    forall z | z in tags && !tags[z].hole
      ensures Agree(m, m', z, End(tags, z))
    {
      assert End(tags, x) <= z || End(tags, z) <= x;
      assert z in tags' && z != x && tags'[z] == tags[z];
    }
  }

  lemma ClaimedBytes(tags: Tags, start: int, end: int, x: int, size: int)
    requires x in tags && tags[x].hole && 0 <= size && Extents(tags, start, end)
    ensures UsedBytes(Claimed(tags, x, size), start, end) == UsedBytes(tags, start, end) + Claimed(tags, x, size)[x].size
  {
    var y := x + OVERHEAD + size;
    assert y in tags ==> End(tags, x) <= y;
    UsedBytesChange(tags, Claimed(tags, x, size), start, end, x);
  }

  /** The tags once the chunk `x` swallows the chunk `y` after it and is counted as in use. */
  ghost function Merged(tags: Tags, x: int, y: int): Tags
    requires x in tags && y in tags
  {
    (tags - {y})[x := Tag(tags[x].size + OVERHEAD + tags[y].size, false)]
  }

  /** The tags with the chunk `x` counted as a hole. */
  ghost function Freed(tags: Tags, x: int): Tags
    requires x in tags
  {
    tags[x := Tag(tags[x].size, true)]
  }

  lemma MergedTiles(tags: Tags, pred: map<int, int>, start: int, end: int, x: int, y: int)
    requires Tiles(tags, pred, start, end) && x in tags && y in tags && End(tags, x) == y
    ensures Tiles(Merged(tags, x, y), MergePred(tags, pred, x, y), start, end)
    ensures Extents(Merged(tags, x, y), start, end)
  {
    hide Tiles;
    MergeTiles(tags, pred, start, end, x, y);
    MarkTiles(MergeTags(tags, x, y), MergePred(tags, pred, x, y), start, end, x, false);
    assert MergeTags(tags, x, y)[x := Tag(MergeTags(tags, x, y)[x].size, false)] == Merged(tags, x, y);
    TilesExtents(Merged(tags, x, y), MergePred(tags, pred, x, y), start, end);
  }

  lemma LooseFacts(m: seq<byte>, tags: Tags, start: int, end: int, h: int, bins: seq<seq<int>>, binOf: map<int, int>, x: int)
    requires 0 < start && Extents(tags, start, end) && TagsOk(m, tags, h) && h in tags && !tags[h].hole
    requires BinsOk(tags, bins, binOf, NULL) && x in tags && tags[x].hole
    ensures NULL !in tags && x != h && binOf.Keys <= tags.Keys && start <= x && End(tags, x) <= end && tags[x].size >= 0
    ensures Word(m, x + SIZE_AT) == tags[x].size && x in binOf && binOf[x] == BinIndex(tags[x].size)
  {
    hide Word, BinIndex;
    TagSize(m, tags, h, x);
    HolesAreChunks(tags, bins, binOf, NULL);
  }

  lemma RelinkKeepsLoose(m: seq<byte>, m': seq<byte>, tags: Tags, start: int, end: int, h: int, d: set<int>, s: seq<int>)
    requires OnlyLinks(m, m', d, s) && Extents(tags, start, end) && d <= tags.Keys && TagsOk(m, tags, h)
    requires h in tags && TagBody(m, h, tags[h])
    ensures TagsOk(m', tags, h) && TagBody(m', h, tags[h])
  {
    hide OnlyLinks;
    forall x | x in tags && x != h
      ensures TagOk(m', x, tags[x])
    {
      RelinkKeepsTag(m, m', tags, start, end, d, s, x);
    }
    RelinkKeepsHeader(m, m', tags, start, end, d, s, h);
    RelinkKeepsFoot(m, m', tags, start, end, d, s, h);
  }

  lemma RelinkKeepsFoot(m: seq<byte>, m': seq<byte>, tags: Tags, start: int, end: int, d: set<int>, s: seq<int>, x: int)
    requires OnlyLinks(m, m', d, s) && Extents(tags, start, end) && d <= tags.Keys && x in tags
    ensures Word(m', x + HEADER + tags[x].size) == Word(m, x + HEADER + tags[x].size)
  {
  }

  /** Merging a loose chunk with an unlisted neighbour disturbs no other tag and no bin. `h` is the loose one. */
  lemma MergedFacts(m: seq<byte>, tags: Tags, heads: seq<int>, bins: seq<seq<int>>, binOf: map<int, int>, x: int, y: int, h: int, o: int)
    requires x in tags && y in tags && x != y && {h, o} == {x, y} && TagsOk(m, tags, h) && !tags[h].hole
    requires BinsOk(tags[o := Tag(tags[o].size, false)], bins, binOf, NULL) && BinsLinked(m, heads, bins, binOf)
    ensures TagsOk(m, Merged(tags, x, y), x) && BinsOk(Merged(tags, x, y), bins, binOf, NULL)
    ensures binOf.Keys <= Merged(tags, x, y).Keys
  {
    hide TagOk, BinIndex, Linked;
    var t, t' := tags[o := Tag(tags[o].size, false)], Merged(tags, x, y);
    assert forall z :: z in binOf ==> z in t && z != x && z != y && z in t' && t'[z] == t[z];
    forall b | 0 <= b < BIN_COUNT
      ensures Sorted(t', bins[b], NULL)
    {
      assert Sorted(t, bins[b], NULL) && BinLinked(m, heads[b], bins[b], binOf, b);
      assert forall i :: 0 <= i < |bins[b]| ==> bins[b][i] in bins[b] && bins[b][i] in binOf;
    }
  }

  /** Keeping every chunk in use after a merge keeps every chunk in use before it, but for the loose one. */
  lemma MergedKeeps(m: seq<byte>, m': seq<byte>, tags: Tags, x: int, y: int, h: int)
    requires x in tags && y in tags && x != y && (h == x || h == y) && (tags[x].hole || h == x) && (tags[y].hole || h == y)
    requires KeepsUsed(m, m', Freed(Merged(tags, x, y), x))
    ensures KeepsUsed(m, m', Freed(tags, h))
  {
    var t, t' := Freed(tags, h), Freed(Merged(tags, x, y), x);
    forall z | z in t && !t[z].hole
      ensures Agree(m, m', z, End(t, z))
    {
      assert z in t' && t'[z] == t[z];
    }
  }

  lemma UsedKeepsFreed(m: seq<byte>, m': seq<byte>, tags: Tags, h: int)
    requires h in tags && KeepsUsed(m, m', tags)
    ensures KeepsUsed(m, m', Freed(tags, h))
  {
  }

  lemma FreedTag(m: seq<byte>, m': seq<byte>, tags: Tags, h: int)
    requires h in tags && TagBody(m, h, tags[h]) && Stored(m, m', h, 1) && TagsOk(m', tags, h) && tags[h].size >= 0
    ensures TagsOk(m', Freed(tags, h), NULL) && Word(m', h + SIZE_AT) == tags[h].size
  {
  }

  lemma BinMembers(m: seq<byte>, heads: seq<int>, bins: seq<seq<int>>, binOf: map<int, int>, b: int)
    requires BinsLinked(m, heads, bins, binOf) && 0 <= b < BIN_COUNT
    ensures forall z :: z in bins[b] ==> z in binOf
  {
  }

  lemma NewHole(tags: Tags, bins: seq<seq<int>>, binOf: map<int, int>, h: int)
    requires BinsOk(tags, bins, binOf, NULL) && h in tags && !tags[h].hole
    ensures h !in binOf && forall z :: z in binOf.Keys + {h} ==> z in Freed(tags, h) && Freed(tags, h)[z].hole
  {
  }

  lemma ReleasedBins(m: seq<byte>, tags: Tags, bins: seq<seq<int>>, binOf: map<int, int>, h: int, b: int, k: int)
    requires BinsOk(tags, bins, binOf, NULL) && NULL !in tags && h in tags && !tags[h].hole
    requires b == BinIndex(tags[h].size) && InsertionPoint(m, bins[b], tags[h].size, k) && TagsOk(m, Freed(tags, h), NULL)
    requires forall z :: z in bins[b] ==> z in binOf
    ensures BinsOk(Freed(tags, h), bins[b := Inserted(bins[b], k, h)], binOf[h := b], NULL)
  {
    hide Word, BinIndex, Inserted;
    var t, s := Freed(tags, h), bins[b];
    assert Sorted(tags, s, NULL);
    forall i | 0 <= i < |s|
      ensures s[i] in t && Word(m, s[i] + SIZE_AT) == t[s[i]].size && t[s[i]].size == tags[s[i]].size
    {
      assert s[i] in s;
      TagSize(m, t, NULL, s[i]);
    }
    assert Sorted(t, s, NULL);
    InsertSorted(t, s, k, h);
    var bins' := bins[b := Inserted(s, k, h)];
    forall c | 0 <= c < BIN_COUNT
      ensures Sorted(t, bins'[c], NULL)
    {
      assert Sorted(tags, bins[c], NULL);
    }
  }

  /** The tags after the chunk `x` is freed: the first chunk is never coalesced, any other is merged with the hole before it
      and then with the hole after it. */
  ghost function Coalesced(tags: Tags, pred: map<int, int>, start: int, end: int, x: int): Tags
    requires Tiles(tags, pred, start, end) && x in tags && (x == start || End(tags, x) != end)
  {
    if x == start then Freed(tags, x)
    else
      assert Preceded(tags, pred, x) && Continues(tags, end, x);
      var prev, next := pred[x], End(tags, x);
      var t, h := if tags[prev].hole then Merged(tags, prev, x) else tags, if tags[prev].hole then prev else x;
      Freed(if tags[next].hole then Merged(t, h, next) else t, h)
  }

  lemma BecomesLoose(m: seq<byte>, tags: Tags, x: int)
    requires TagsOk(m, tags, NULL) && x in tags && NULL !in tags
    ensures TagsOk(m, tags, x) && TagBody(m, x, tags[x])
  {
  }

  /** What the words around the chunk `x` say. */
  lemma Neighbours(m: seq<byte>, tags: Tags, pred: map<int, int>, start: int, end: int, x: int)
    requires 0 < start && Tiles(tags, pred, start, end) && TagsOk(m, tags, NULL) && NULL !in tags
    requires x in tags && x != start && End(tags, x) != end
    ensures x in pred && pred[x] in tags && End(tags, pred[x]) == x && End(tags, x) in tags
    ensures Word(m, x - 4) == pred[x] && (Word(m, pred[x]) != 0 <==> tags[pred[x]].hole)
    ensures start <= pred[x] && pred[x] + OVERHEAD <= x && tags[pred[x]].size >= 0
    ensures Extents(tags, start, end)
  {
    hide Word;
    assert Preceded(tags, pred, x) && Continues(tags, end, x);
    TagSize(m, tags, NULL, pred[x]);
  }

  /** The chunk after the loose one is where it was before the first merge. */
  lemma NextAfterMerge(tags: Tags, tags': Tags, start: int, end: int, prev: int, x: int, next: int, head: int)
    requires Extents(tags, start, end) && x in tags && prev in tags && next in tags
    requires End(tags, prev) == x && End(tags, x) == next
    requires (tags[prev].hole && head == prev && tags' == Merged(tags, prev, x)) || (!tags[prev].hole && head == x && tags' == tags)
    ensures head in tags' && next in tags' && tags'[next] == tags[next] && End(tags', head) == next
  {
  }

  lemma NextFlag(m: seq<byte>, tags: Tags, pred: map<int, int>, start: int, end: int, head: int, next: int)
    requires 0 < start && Tiles(tags, pred, start, end) && TagsOk(m, tags, head) && head in tags && next in tags && End(tags, head) == next
    ensures Word(m, next) != 0 <==> tags[next].hole
    ensures 0 < next && next + OVERHEAD <= end
  {
  }

  /** Keeping the chunks in use after the first merge keeps those in use before it. */
  lemma MergedStill(m: seq<byte>, m': seq<byte>, tags: Tags, tags1: Tags, x: int, head: int)
    requires x in tags && head in tags1 && KeepsUsed(m, m', Freed(tags1, head))
    requires (head == x && tags1 == tags) || (head in tags && tags[head].hole && head != x && tags1 == Merged(tags, head, x))
    ensures KeepsUsed(m, m', Freed(tags, x))
  {
    if head != x {
      MergedKeeps(m, m', tags, head, x, x);
    }
  }

  lemma ReleasedStill(m: seq<byte>, m': seq<byte>, tags1: Tags, tags2: Tags, next: int, head: int)
    requires head in tags1 && head in tags2 && KeepsUsed(m, m', Freed(tags2, head))
    requires tags2 == tags1 || (next in tags1 && tags1[next].hole && next != head && tags2 == Merged(tags1, head, next))
    ensures KeepsUsed(m, m', Freed(tags1, head))
  {
    if tags2 != tags1 {
      MergedKeeps(m, m', tags1, head, next, head);
    }
  }

  lemma FreedBytes(tags: Tags, pred: map<int, int>, start: int, end: int, x: int)
    requires Tiles(tags, pred, start, end) && x in tags && !tags[x].hole && (x == start || End(tags, x) != end)
    ensures UsedBytes(Coalesced(tags, pred, start, end, x), start, end) == UsedBytes(tags, start, end) - tags[x].size
  {
    var t := Coalesced(tags, pred, start, end, x);
    UsedBytesChange(tags, t, start, end, x);
  }

  // ----- Payloads -----

  /** The client's block in the chunk `x`. */
  ghost predicate InBlock(tags: Tags, x: int, k: int) {
    x in tags && !tags[x].hole && x + BLOCK_AT <= k < x + BLOCK_AT + tags[x].size
  }

  /** A byte the heap itself uses: hole flag, size, footer, or a link of a hole. */
  ghost predicate InTag(tags: Tags, x: int, k: int) {
    && x in tags
    && (x <= k < x + NEXT_AT || x + HEADER + tags[x].size <= k < End(tags, x) || (tags[x].hole && x <= k < x + HEADER))
  }

  /** No byte belongs to two live blocks, or to a live block and to a header or footer. */
  lemma BlocksDisjoint(tags: Tags, start: int, end: int, k: int)
    requires Extents(tags, start, end)
    ensures forall x, y :: InBlock(tags, x, k) && InBlock(tags, y, k) ==> x == y
    ensures forall x, y :: InBlock(tags, x, k) ==> !InTag(tags, y, k)
  {
  }

  // ----- Adjacent holes -----

  /** No hole is followed by a hole. */
  ghost predicate NoAdjacentHoles(tags: Tags) {
    forall x :: x in tags && tags[x].hole && End(tags, x) in tags ==> !tags[End(tags, x)].hole
  }

  /** Allocation never creates two holes in a row. */
  lemma ClaimedAdjacency(tags: Tags, pred: map<int, int>, start: int, end: int, x: int, size: int)
    requires Tiles(tags, pred, start, end) && x in tags && tags[x].hole && 0 <= size <= tags[x].size && NoAdjacentHoles(tags)
    ensures NoAdjacentHoles(Claimed(tags, x, size))
  {
    var t, y := Claimed(tags, x, size), x + OVERHEAD + size;
    forall z | z in t && t[z].hole && End(t, z) in t
      ensures !t[End(t, z)].hole
    {
      assert z != y ==> z in tags && (z == x || End(tags, z) <= x || End(tags, x) <= z);
    }
  }

  /** Freeing never leaves two holes in a row, with one exception: freeing the first chunk when a hole follows it. */
  lemma CoalescedAdjacency(tags: Tags, pred: map<int, int>, start: int, end: int, x: int)
    requires Tiles(tags, pred, start, end) && x in tags && !tags[x].hole && (x == start || End(tags, x) != end)
    requires NoAdjacentHoles(tags)
    ensures NoAdjacentHoles(Coalesced(tags, pred, start, end, x)) <==>
            !(x == start && End(tags, x) in tags && tags[End(tags, x)].hole)
  {
    var t := Coalesced(tags, pred, start, end, x);
    if x == start {
      FirstFreed(tags, start, end);
    } else {
      assert Preceded(tags, pred, x) && Continues(tags, end, x);
      var prev, next := pred[x], End(tags, x);
      var t1, h := if tags[prev].hole then Merged(tags, prev, x) else tags, if tags[prev].hole then prev else x;
      MergedBefore(tags, start, end, prev, x);
      FreedBetween(tags, t1, start, end, h, next);
    }
  }

  lemma FirstFreed(tags: Tags, start: int, end: int)
    requires Extents(tags, start, end) && start in tags && !tags[start].hole && NoAdjacentHoles(tags)
    ensures NoAdjacentHoles(Freed(tags, start)) <==> !(End(tags, start) in tags && tags[End(tags, start)].hole)
  {
    var t := Freed(tags, start);
    assert End(t, start) == End(tags, start);
    forall z | z in t && z != start && t[z].hole && End(t, z) in t
      ensures !t[End(t, z)].hole
    {
      assert End(tags, start) <= z;
    }
  }

  /** After the first merge, no hole precedes the loose chunk and no two holes are adjacent. */
  lemma MergedBefore(tags: Tags, start: int, end: int, prev: int, x: int)
    requires Extents(tags, start, end) && x in tags && prev in tags && End(tags, prev) == x && !tags[x].hole && NoAdjacentHoles(tags)
    ensures var t, h := if tags[prev].hole then Merged(tags, prev, x) else tags, if tags[prev].hole then prev else x;
      && Extents(t, start, end) && h in t && End(t, h) == End(tags, x) && !t[h].hole && NoAdjacentHoles(t)
      && (forall z :: z in t && End(t, z) == h ==> !t[z].hole)
      && (End(tags, x) in tags ==> End(tags, x) in t && t[End(tags, x)] == tags[End(tags, x)])
  {
    if tags[prev].hole {
      SwallowedBefore(tags, start, end, prev, x);
    } else {
      forall z | z in tags && End(tags, z) == x
        ensures !tags[z].hole
      {
        EndsAt(tags, start, end, z, prev);
      }
    }
  }

  lemma SwallowedBefore(tags: Tags, start: int, end: int, prev: int, x: int)
    requires Extents(tags, start, end) && x in tags && prev in tags && End(tags, prev) == x && !tags[x].hole && NoAdjacentHoles(tags)
    requires tags[prev].hole
    ensures var t := Merged(tags, prev, x);
      && Extents(t, start, end) && prev in t && End(t, prev) == End(tags, x) && !t[prev].hole && NoAdjacentHoles(t)
      && (forall z :: z in t && End(t, z) == prev ==> !t[z].hole)
      && (End(tags, x) in tags ==> End(tags, x) in t && t[End(tags, x)] == tags[End(tags, x)])
  {
    MergedExtents(tags, start, end, prev, x);
    var t := Merged(tags, prev, x);
    assert forall z :: z in t && z != prev ==> z in tags && z != x && t[z] == tags[z];
    assert prev in t && !t[prev].hole && End(t, prev) == End(tags, x);
    hide Merged, Extents;
  }

  lemma MergedExtents(tags: Tags, start: int, end: int, x: int, y: int)
    requires Extents(tags, start, end) && x in tags && y in tags && End(tags, x) == y
    ensures Extents(Merged(tags, x, y), start, end)
  {
    MergeExtents(tags, start, end, x, y);
    assert forall z :: z in Merged(tags, x, y) ==> End(Merged(tags, x, y), z) == End(MergeTags(tags, x, y), z);
  }

  lemma FreedBetween(tags: Tags, t: Tags, start: int, end: int, h: int, next: int)
    requires Extents(t, start, end) && h in t && next in t && End(t, h) == next && !t[h].hole && NoAdjacentHoles(t)
    requires forall z :: z in t && End(t, z) == h ==> !t[z].hole
    ensures NoAdjacentHoles(Freed(if t[next].hole then Merged(t, h, next) else t, h))
  {
  }

  /** The second condition `heap_free` needs is not idle: a first small block and one that takes the rest leave the last
      chunk in use, large enough that no `expand` is asked for, and not first. Freeing it reads past the heap. */
  lemma LastChunkCanBeInUse(start: int)
    ensures var end := start + HEAP_INIT_SIZE;
            var t0 := map[start := Tag(HEAP_INIT_SIZE - OVERHEAD, true)];
            var t1 := Claimed(t0, start, 100);
            var y := start + OVERHEAD + 100;
      && y in t1 && t1[y].hole
      && var t2 := Claimed(t1, y, t1[y].size);
         !t2[y].hole && y != start && End(t2, y) == end && t2[y].size >= MIN_WILDERNESS
  {
  }

  /** A client writing inside its own block disturbs neither the heap nor any other block. */
  lemma ClientWrite(m: seq<byte>, m': seq<byte>, tags: Tags, pred: map<int, int>, start: int, end: int, x: int,
                    heads: seq<int>, bins: seq<seq<int>>, binOf: map<int, int>)
    requires 0 < start && Tiles(tags, pred, start, end) && TagsOk(m, tags, NULL)
    requires BinsLinked(m, heads, bins, binOf) && BinsOk(tags, bins, binOf, NULL)
    requires x in tags && !tags[x].hole && |m'| == |m| && forall k :: 0 <= k < |m| && !InBlock(tags, x, k) ==> m'[k] == m[k]
    ensures TagsOk(m', tags, NULL) && BinsLinked(m', heads, bins, binOf) && KeepsOthers(m, m', tags, x)
  {
    TilesExtents(tags, pred, start, end);
    hide Word, BinsLinked, Tiles, BinIndex, Sorted, BinsOk;
    forall z | z in tags
      ensures z != x ==> Agree(m, m', z, End(tags, z))
      ensures TagOk(m', z, tags[z])
    {
      assert TagOk(m, z, tags[z]);
      if z != x {
        assert End(tags, x) <= z || End(tags, z) <= x;
        TagFrame(m, m', z, tags[z]);
      } else {
        AgreeWord(m, m', x, x + NEXT_AT, x);
        AgreeWord(m, m', x, x + NEXT_AT, x + SIZE_AT);
        AgreeWord(m, m', x + HEADER + tags[x].size, End(tags, x), x + HEADER + tags[x].size);
      }
    }
    OthersKeepBins(m, m', tags, start, end, x, heads, bins, binOf);
  }

  /** The chunks of a fresh heap once its first block of 100 bytes is taken. */
  lemma FirstBlock(start: int)
    ensures Claimed(map[start := Tag(HEAP_INIT_SIZE - OVERHEAD, true)], start, 100)
         == map[start := Tag(100, false), start + OVERHEAD + 100 := Tag(HEAP_INIT_SIZE - 2 * OVERHEAD - 100, true)]
  {
  }

  lemma FirstBlockLast(tags: Tags, pred: map<int, int>, start: int, end: int)
    requires tags == map[start := Tag(100, false), start + OVERHEAD + 100 := Tag(HEAP_INIT_SIZE - 2 * OVERHEAD - 100, true)]
    requires end == start + HEAP_INIT_SIZE && Tiles(tags, pred, start, end)
    ensures pred[end] == start + OVERHEAD + 100 && !NoAdjacentHoles(Coalesced(tags, pred, start, end, start))
  {
    assert Preceded(tags, pred, end);
    var t := Coalesced(tags, pred, start, end, start);
    assert t[start].hole && t[End(t, start)].hole;
  }

  /** A block allocated on a fresh heap and freed again leaves two holes in a row: the first chunk is not coalesced. */
  method AdjacentHoles(ram: Ram, start: int) returns (h: Heap)
    requires 0 < start && start + HEAP_INIT_SIZE <= |ram.bytes| && start + HEAP_INIT_SIZE < WORD_LIMIT
    modifies ram
    ensures fresh(h) && h.Valid() && !NoAdjacentHoles(h.tags)
  {
    hide Word, BinsLinked, Tiles, TagsOk, BinsOk, BinIndex, UsedBytes, KeepsUsed, Coalesced, Claimed, NoAdjacentHoles;
    h := new Heap(ram, start);
    FirstBlock(start);
    assert start in h.tags && h.tags[start].hole && h.tags[start].size >= 100;
    var r := h.Alloc(100);
    FirstBlockLast(h.tags, h.pred, start, h.end);
    h.Free(r.block);
  }
}
