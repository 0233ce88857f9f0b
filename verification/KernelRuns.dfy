/** Whole runs of the kernel's allocation functions together with the clients' own writes: every block that is held contains what its
    client last wrote, whatever happens to the others. */
module KernelRuns {
  import opened Common
  import opened HeapMemory
  import opened HeapBins
  import opened HeapLayout
  import opened Heap
  import opened KernelAlloc

  datatype Request =
    | Alloc(size: int)
    | AllocZeroed(n: int, size: int)
    | Release(addr: int)
    | Resize(addr: int, size: int)
    | Write(addr: int, offset: nat, value: byte)

  /** What a request did. A new block comes with whatever bytes it has. A request that its caller may not make does nothing. */
  datatype Event =
    | Got(block: int, bytes: seq<byte>)
    | Gone(block: int)
    | Moved(from: int, block: int, bytes: seq<byte>)
    | Wrote(block: int, offset: nat, value: byte)
    | Nothing

  type Contents = map<int, seq<byte>>

  ghost function Poked(b: seq<byte>, offset: nat, value: byte): seq<byte>
    requires offset < |b|
  {
    b[offset := value]
  }

  /** The contents of the held blocks after an event: a client's view, in which blocks do not interfere. */
  ghost function Apply(c: Contents, e: Event): Contents {
    match e
    case Got(p, bytes) => c[p := bytes]
    case Gone(p) => c - {p}
    case Moved(p, q, bytes) => (c - {p})[q := bytes]
    case Wrote(p, offset, value) => if p in c && offset < |c[p]| then c[p := Poked(c[p], offset, value)] else c
    case Nothing => c
  }

  ghost function After(events: seq<Event>): Contents {
    if events == [] then map[] else Apply(After(events[..|events| - 1]), events[|events| - 1])
  }

  /** `heap_free` may look at the chunk after this block: it is the first, or not the last. */
  ghost predicate MayFree(c: Contents, p: int, start: int, end: int) {
    p in c && (p == start + BLOCK_AT || p + |c[p]| + OVERHEAD - BLOCK_AT != end)
  }

  /** How much a request asks of `heap_alloc`, if anything. */
  ghost function Asked(r: Request, c: Contents, start: int, end: int): Option<int> {
    match r
    case Alloc(size) => Some(size)
    case AllocZeroed(n, size) => Some(n * size % WORD_LIMIT)
    case Resize(p, size) => if MayFree(c, p, start, end) && size > |c[p]| then Some(size) else None
    case _ => None
  }

  /** What happens on a request that finds memory, for a client with contents `c`. A block that may not be freed is neither freed nor
      grown. */
  ghost predicate Allowed(r: Request, c: Contents, e: Event, start: int, end: int) {
    match r
    case Alloc(size) => e.Got? && e.block !in c && size <= |e.bytes| <= size + 24
    case AllocZeroed(n, size) =>
      var total := n * size % WORD_LIMIT;
      e.Got? && e.block !in c && total <= |e.bytes| <= total + 24 && e.bytes[..total] == Zeros(total)
    case Release(p) => e == if MayFree(c, p, start, end) then Gone(p) else Nothing
    case Resize(p, size) =>
      if p !in c then e == Nothing
      else if 0 < size <= |c[p]| then e == Moved(p, p, c[p])
      else if !MayFree(c, p, start, end) then e == Nothing
      else if size == 0 then e == Gone(p)
      else e.Moved? && e.from == p && e.block !in c && size > 0 && size <= |e.bytes| <= size + 24 && Prefix(e.bytes, c[p], size)
    case Write(p, offset, value) => e == if p in c && offset < |c[p]| then Wrote(p, offset, value) else Nothing
  }

  /** How a request ends: it is answered, no hole is large enough, or the heap asks for `expand`. */
  datatype Outcome = Done | NoMemory | Expands

  /** After a request: the blocks in use are `left`, and they hold what the event says; or what was asked for is not there, or taking it
      from the chunks `before` left the last one too small. Even then every block holds what it held. */
  ghost predicate Answered(h: Heap, r: Request, c: Contents, left: set<int>, outcome: Outcome, e: Event, before: Tags)
    reads h, h.ram
  {
    match outcome
    case Done => h.Valid() && left == Blocks(h.tags) && Holds(h.ram.bytes, h.tags, Apply(c, e)) && Allowed(r, c, e, h.start, h.end)
    case NoMemory =>
      var asked := Asked(r, c, h.start, h.end);
      h.Valid() && left == Blocks(h.tags) && Holds(h.ram.bytes, h.tags, c) && asked.Some? && NoRoom(h.tags, asked.value)
    case Expands =>
      var asked := Asked(r, c, h.start, h.end);
      asked.Some? && TakenShort(h, before, asked.value) && StillHeld(h.ram.bytes, h.tags, c)
  }

  /** The two agree as far as both go, up to `size`. */
  ghost predicate Prefix(b: seq<byte>, was: seq<byte>, size: int)
    requires 0 <= size <= |b|
  {
    if size <= |was| then b[..size] == was[..size] else b[..|was|] == was
  }

  ghost predicate HoldsAt(m: seq<byte>, tags: Tags, p: int, b: seq<byte>) {
    && IsBlock(tags, p) && tags[p - BLOCK_AT].size == |b| && 0 < p && p + |b| <= |m| && m[p..p + |b|] == b
  }

  /** The blocks in use are those of `c`, and memory holds their contents. */
  ghost predicate Holds(m: seq<byte>, tags: Tags, c: Contents) {
    c.Keys == Blocks(tags) && forall p :: p in c ==> HoldsAt(m, tags, p, c[p])
  }

  ghost predicate StillHeld(m: seq<byte>, tags: Tags, c: Contents) {
    forall p :: p in c ==> HoldsAt(m, tags, p, c[p])
  }

  /** The blocks in use are those of `c`, with their sizes. */
  ghost predicate Sized(tags: Tags, c: Contents) {
    c.Keys == Blocks(tags) && forall p :: p in c ==> IsBlock(tags, p) && tags[p - BLOCK_AT].size == |c[p]|
  }

  lemma HoldsSized(m: seq<byte>, tags: Tags, c: Contents)
    requires Holds(m, tags, c)
    ensures Sized(tags, c)
  {
  }

  /** The contents of one block. */
  ghost function BytesAt(m: seq<byte>, tags: Tags, p: int): seq<byte>
    requires IsBlock(tags, p) && 0 < p && 0 <= tags[p - BLOCK_AT].size && p + tags[p - BLOCK_AT].size <= |m|
  {
    m[p..p + tags[p - BLOCK_AT].size]
  }

  lemma KeptAt(m: seq<byte>, m': seq<byte>, tags: Tags, tags': Tags, p: int, q: int, b: seq<byte>)
    requires KeepsBlocks(m, m', tags, tags', p) && HoldsAt(m, tags, q, b) && q != p
    ensures HoldsAt(m', tags', q, b)
  {
    assert Agree(m, m', q - BLOCK_AT, End(tags, q - BLOCK_AT));
    forall i | q <= i < q + |b| ensures m'[i] == m[i] {}
    assert m'[q..q + |b|] == m[q..q + |b|];
  }

  lemma Kept(m: seq<byte>, m': seq<byte>, tags: Tags, tags': Tags, p: int, c: Contents)
    requires KeepsBlocks(m, m', tags, tags', p) && Holds(m, tags, c)
    ensures forall q :: q in c && q != p ==> HoldsAt(m', tags', q, c[q])
  {
    hide KeepsBlocks, HoldsAt;
    forall q | q in c && q != p ensures HoldsAt(m', tags', q, c[q]) { KeptAt(m, m', tags, tags', p, q, c[q]); }
  }

  /** A block of a sound heap lies in memory. */
  lemma BlockInMemory(h: Heap, p: int)
    requires h.Valid() && IsBlock(h.tags, p)
    ensures 0 < p && 0 <= h.tags[p - BLOCK_AT].size && p + h.tags[p - BLOCK_AT].size <= |h.ram.bytes|
    ensures HoldsAt(h.ram.bytes, h.tags, p, BytesAt(h.ram.bytes, h.tags, p))
    ensures |BytesAt(h.ram.bytes, h.tags, p)| == h.tags[p - BLOCK_AT].size
  {
    hide Word, BinsLinked, Tiles, TagsOk, BinsOk, BinIndex, UsedBytes;
    HeapFacts(h.ram.bytes, h.tags, h.pred, h.start, h.end, h.heads, h.bins, h.binOf, p - BLOCK_AT);
  }

  /** The block appears with the bytes it has. */
  method StepAlloc(h: Heap, size: int, held: set<int>, ghost c: Contents) returns (left: set<int>, outcome: Outcome, ghost e: Event)
    requires h.Valid() && held == Blocks(h.tags) && Holds(h.ram.bytes, h.tags, c) && 0 <= size
    modifies h, h.ram
    ensures Answered(h, Alloc(size), c, left, outcome, e, old(h.tags))
  {
    hide Heap.Valid, Heap.Sound, Blocks, KeepsBlocks, HoldsAt, NoRoom, TakenShort;
    NullIsNone(h.ram.bytes, h.tags, c);
    var r := Malloc(h, size);
    left, outcome, e := held, Done, Nothing;
    match r
    case Block(p) =>
      left := held + {p};
      BlockInMemory(h, p);
      Kept(old(h.ram.bytes), h.ram.bytes, old(h.tags), h.tags, NULL, c);
      e := Got(p, BytesAt(h.ram.bytes, h.tags, p));
    case Null =>
      outcome := NoMemory;
    case Expanding =>
      outcome := Expands;
      Kept(old(h.ram.bytes), h.ram.bytes, old(h.tags), h.tags, NULL, c);
  }

  method StepAllocZeroed(h: Heap, n: int, size: int, held: set<int>, ghost c: Contents)
    returns (left: set<int>, outcome: Outcome, ghost e: Event)
    requires h.Valid() && held == Blocks(h.tags) && Holds(h.ram.bytes, h.tags, c) && 0 <= n < WORD_LIMIT && 0 <= size < WORD_LIMIT
    modifies h, h.ram
    ensures Answered(h, AllocZeroed(n, size), c, left, outcome, e, old(h.tags))
  {
    hide Heap.Valid, Heap.Sound, Blocks, KeepsBlocks, HoldsAt, NoRoom, Zeros, TakenShort;
    NullIsNone(h.ram.bytes, h.tags, c);
    var r := Calloc(h, n, size);
    left, outcome, e := held, Done, Nothing;
    match r
    case Block(p) =>
      left := held + {p};
      BlockInMemory(h, p);
      Kept(old(h.ram.bytes), h.ram.bytes, old(h.tags), h.tags, NULL, c);
      e := Got(p, BytesAt(h.ram.bytes, h.tags, p));
      ghost var total := n * size % WORD_LIMIT;
      assert e.bytes[..total] == h.ram.bytes[p..p + total];
    case Null =>
      outcome := NoMemory;
    case Expanding =>
      outcome := Expands;
      Kept(old(h.ram.bytes), h.ram.bytes, old(h.tags), h.tags, NULL, c);
  }

  lemma NullIsNone(m: seq<byte>, tags: Tags, c: Contents)
    requires Holds(m, tags, c)
    ensures NULL !in c
  {
  }

  /** What a caller can tell about a block it holds: its size, and whether `heap_free` may look at the chunk after it. */
  method Inspect(h: Heap, p: int) returns (size: int, freeable: bool)
    requires h.Valid() && IsBlock(h.tags, p)
    ensures size == h.tags[p - BLOCK_AT].size && (freeable <==> Freeable(h, p))
  {
    hide Word, BinsLinked, Tiles, TagsOk, BinsOk, BinIndex, UsedBytes;
    HeapFacts(h.ram.bytes, h.tags, h.pred, h.start, h.end, h.heads, h.bins, h.binOf, p - BLOCK_AT);
    size := h.ram.Load(p - BLOCK_AT + SIZE_AT);
    freeable := p - BLOCK_AT == h.start || p - BLOCK_AT + OVERHEAD + size != h.end;
  }

  method StepRelease(h: Heap, p: int, held: set<int>, ghost c: Contents) returns (left: set<int>, ghost e: Event)
    requires h.Valid() && held == Blocks(h.tags) && Holds(h.ram.bytes, h.tags, c)
    modifies h, h.ram
    ensures Answered(h, Release(p), c, left, Done, e, old(h.tags))
  {
    hide Heap.Valid, Blocks, KeepsBlocks, HoldsAt, Freeable;
    left, e := held, Nothing;
    if p in held {
      BlockListed(h.tags, p);
      var size, freeable := Inspect(h, p);
      FreeableInView(h, p, c);
      if freeable {
        Kfree(h, p);
        Kept(old(h.ram.bytes), h.ram.bytes, old(h.tags), h.tags, p, c);
        left, e := held - {p}, Gone(p);
      }
    }
  }

  /** A client can tell from its own blocks what may be freed. */
  lemma FreeableInView(h: Heap, p: int, c: Contents)
    requires Holds(h.ram.bytes, h.tags, c) && p in c
    ensures Freeable(h, p) <==> MayFree(c, p, h.start, h.end)
  {
    SizeOf(h.ram.bytes, h.tags, p, c);
  }

  /** Resizing: in place when the block is large enough, by freeing when the size is 0, and otherwise by moving. */
  method StepResize(h: Heap, p: int, size: int, held: set<int>, ghost c: Contents)
    returns (left: set<int>, outcome: Outcome, ghost e: Event)
    requires h.Valid() && held == Blocks(h.tags) && Holds(h.ram.bytes, h.tags, c) && 0 <= size
    modifies h, h.ram
    ensures Answered(h, Resize(p, size), c, left, outcome, e, old(h.tags))
  {
    hide Heap.Valid, Heap.Sound, Blocks, KeepsBlocks, HoldsAt, Freeable, NoRoom, Holds, Apply, Prefix, BytesAt, MayFree, TakenShort;
    left, outcome, e := held, Done, Nothing;
    SameKeys(h.ram.bytes, h.tags, c);
    if p in held {
      BlockListed(h.tags, p);
      var oldSize, freeable := Inspect(h, p);
      SizeOf(h.ram.bytes, h.tags, p, c);
      FreeableInView(h, p, c);
      if freeable || 0 < size <= oldSize {
        var r := Realloc(h, p, size);
        match r
        case Block(q) =>
          BlockInMemory(h, q);
          left, e := held - {p} + {q}, Moved(p, q, BytesAt(h.ram.bytes, h.tags, q));
          MovedPrefix(old(h.ram.bytes), h.ram.bytes, old(h.tags), h.tags, p, q, c[p], size);
          MovedHolds(old(h.ram.bytes), h.ram.bytes, old(h.tags), h.tags, p, q, c, size, e.bytes);
          if size <= oldSize { InPlace(h.ram.bytes, h.tags, p, c[p], e.bytes); }
        case Null =>
          if size == 0 {
            left, e := held - {p}, Gone(p);
            GoneHolds(old(h.ram.bytes), h.ram.bytes, old(h.tags), h.tags, p, c);
          } else {
            outcome := NoMemory;
          }
        case Expanding =>
          outcome := Expands;
          NullIsNone(old(h.ram.bytes), old(h.tags), c);
          Kept(old(h.ram.bytes), h.ram.bytes, old(h.tags), h.tags, NULL, c);
      }
    }
  }

  /** A block resized in place has the bytes it had. */
  lemma InPlace(m: seq<byte>, tags: Tags, p: int, b: seq<byte>, b': seq<byte>)
    requires HoldsAt(m, tags, p, b) && HoldsAt(m, tags, p, b')
    ensures b' == b
  {
  }

  lemma SameKeys(m: seq<byte>, tags: Tags, c: Contents)
    requires Holds(m, tags, c)
    ensures c.Keys == Blocks(tags) && Apply(c, Nothing) == c
  {
  }

  lemma MovedHolds(m: seq<byte>, m': seq<byte>, tags: Tags, tags': Tags, p: int, q: int, c: Contents, size: int, b: seq<byte>)
    requires Holds(m, tags, c) && p in c && KeepsBlocks(m, m', tags, tags', p) && HoldsAt(m', tags', q, b)
    requires Blocks(tags') == Blocks(tags) - {p} + {q}
    ensures Holds(m', tags', Apply(c, Moved(p, q, b)))
  {
    hide HoldsAt, KeepsBlocks, Blocks;
    Kept(m, m', tags, tags', p, c);
  }

  lemma GoneHolds(m: seq<byte>, m': seq<byte>, tags: Tags, tags': Tags, p: int, c: Contents)
    requires Holds(m, tags, c) && p in c && KeepsBlocks(m, m', tags, tags', p) && Blocks(tags') == Blocks(tags) - {p}
    ensures Holds(m', tags', Apply(c, Gone(p)))
  {
    hide HoldsAt, KeepsBlocks, Blocks;
    Kept(m, m', tags, tags', p, c);
  }

  lemma SizeOf(m: seq<byte>, tags: Tags, p: int, c: Contents)
    requires Holds(m, tags, c) && p in c
    ensures p != NULL && IsBlock(tags, p) && tags[p - BLOCK_AT].size == |c[p]| && HoldsAt(m, tags, p, c[p])
  {
  }

  lemma MovedPrefix(m: seq<byte>, m': seq<byte>, tags: Tags, tags': Tags, p: int, q: int, b: seq<byte>, size: int)
    requires HoldsAt(m, tags, p, b) && IsBlock(tags', q) && 0 < q && 0 <= size <= tags'[q - BLOCK_AT].size && q + tags'[q - BLOCK_AT].size <= |m'|
    requires var n := if size <= |b| then size else |b|; q + n <= |m'| && m'[q..q + n] == m[p..p + n]
    ensures Prefix(BytesAt(m', tags', q), b, size)
  {
    var n := if size <= |b| then size else |b|;
    assert BytesAt(m', tags', q)[..n] == m'[q..q + n];
    assert b[..n] == m[p..p + n];
  }

  method StepWrite(h: Heap, p: int, offset: nat, value: byte, held: set<int>, ghost c: Contents) returns (ghost e: Event)
    requires h.Valid() && held == Blocks(h.tags) && Holds(h.ram.bytes, h.tags, c)
    modifies h, h.ram
    ensures Answered(h, Write(p, offset, value), c, held, Done, e, old(h.tags))
  {
    hide Blocks, KeepsBlocks, HoldsAt, Word, BinsLinked, Tiles, TagsOk, BinsOk, BinIndex, UsedBytes, KeepsOthers;
    e := Nothing;
    if p in held {
      BlockListed(h.tags, p);
      SizeOf(h.ram.bytes, h.tags, p, c);
      var size, freeable := Inspect(h, p);
      if offset < size {
        BlockInMemory(h, p);
        ghost var m := h.ram.bytes;
        h.ram.Poke(p + offset, value);
        ClientWrite(m, h.ram.bytes, h.tags, h.pred, h.start, h.end, p - BLOCK_AT, h.heads, h.bins, h.binOf);
        OthersKeepBlocks(m, h.ram.bytes, h.tags, p);
        Kept(m, h.ram.bytes, h.tags, h.tags, p, c);
        PokedAt(m, h.ram.bytes, h.tags, p, c[p], offset, value);
        e := Wrote(p, offset, value);
      }
    }
  }

  lemma OthersKeepBlocks(m: seq<byte>, m': seq<byte>, tags: Tags, p: int)
    requires KeepsOthers(m, m', tags, p - BLOCK_AT) && |m'| == |m|
    ensures KeepsBlocks(m, m', tags, tags, p)
  {
  }

  lemma PokedAt(m: seq<byte>, m': seq<byte>, tags: Tags, p: int, b: seq<byte>, offset: nat, value: byte)
    requires HoldsAt(m, tags, p, b) && offset < |b| && m' == m[p + offset := value]
    ensures HoldsAt(m', tags, p, Poked(b, offset, value))
  {
  }

  /** Each event is the one that its request has, given the contents before it. */
  ghost predicate Answers(requests: seq<Request>, events: seq<Event>, start: int, end: int) {
    |events| <= |requests| && forall i :: 0 <= i < |events| ==> Allowed(requests[i], After(events[..i]), events[i], start, end)
  }

  /** Every run, up to the first request that finds no hole large enough or asks for `expand`: each request is answered, the blocks in
      use are exactly those held, and each holds what the requests have put there. `expand` is asked for only when the request was cut
      from a best hole of the chunks `before` it, and that left the last chunk too small. */
  method Run(h: Heap, requests: seq<Request>) returns (held: set<int>, outcome: Outcome, ghost events: seq<Event>, ghost before: Tags)
    requires h.Valid() && Blocks(h.tags) == {}
    requires forall i :: 0 <= i < |requests| ==> WellFormed(requests[i])
    modifies h, h.ram
    ensures Answers(requests, events, h.start, h.end)
    ensures outcome == Done ==> |events| == |requests|
    ensures outcome != Done ==> |events| < |requests| && Asked(requests[|events|], After(events), h.start, h.end).Some?
    ensures outcome == NoMemory ==> NoRoom(h.tags, Asked(requests[|events|], After(events), h.start, h.end).value)
    ensures outcome == Expands ==> TakenShort(h, before, Asked(requests[|events|], After(events), h.start, h.end).value)
    ensures outcome == Expands ==> Sized(before, After(events)) && StillHeld(h.ram.bytes, h.tags, After(events))
    ensures outcome != Expands ==> h.Valid() && held == Blocks(h.tags) && Holds(h.ram.bytes, h.tags, After(events))
  {
    hide Heap.Valid, Heap.Sound, Blocks, HoldsAt, Allowed, Apply, Asked, NoRoom, TakenShort, Holds, Sized, StillHeld;
    held, outcome, events, before := {}, Done, [], h.tags;
    NoneHeld(h.ram.bytes, h.tags);
    for i := 0 to |requests|
      invariant h.Valid() && held == Blocks(h.tags) && |events| == i && Answers(requests, events, h.start, h.end)
      invariant Holds(h.ram.bytes, h.tags, After(events)) && outcome == Done
    {
      ghost var c, e := After(events), Nothing;
      before := h.tags;
      HoldsSized(h.ram.bytes, h.tags, c);
      held, outcome, e := Step(h, requests[i], held, c);
      if outcome != Done { return; }
      AnswersMore(requests, events, e, h.start, h.end);
      events := events + [e];
    }
  }

  lemma NoneHeld(m: seq<byte>, tags: Tags)
    requires Blocks(tags) == {}
    ensures Holds(m, tags, map[])
  {
  }

  /** Sizes are 32-bit words. */
  predicate WellFormed(r: Request) {
    match r
    case Alloc(size) => 0 <= size
    case AllocZeroed(n, size) => 0 <= n < WORD_LIMIT && 0 <= size < WORD_LIMIT
    case Resize(_, size) => 0 <= size
    case _ => true
  }

  method Step(h: Heap, r: Request, held: set<int>, ghost c: Contents) returns (left: set<int>, outcome: Outcome, ghost e: Event)
    requires h.Valid() && held == Blocks(h.tags) && Holds(h.ram.bytes, h.tags, c) && WellFormed(r)
    modifies h, h.ram
    ensures Answered(h, r, c, left, outcome, e, old(h.tags))
  {
    hide Heap.Valid, Blocks, HoldsAt, Holds, Answered;
    left, outcome := held, Done;
    match r
    case Alloc(size) =>
      left, outcome, e := StepAlloc(h, size, held, c);
    case AllocZeroed(n, size) =>
      left, outcome, e := StepAllocZeroed(h, n, size, held, c);
    case Release(p) =>
      left, e := StepRelease(h, p, held, c);
    case Resize(p, size) =>
      left, outcome, e := StepResize(h, p, size, held, c);
    case Write(p, offset, value) =>
      e := StepWrite(h, p, offset, value, held, c);
  }

  lemma AnswersMore(requests: seq<Request>, events: seq<Event>, e: Event, start: int, end: int)
    requires Answers(requests, events, start, end) && |events| < |requests| && Allowed(requests[|events|], After(events), e, start, end)
    ensures Answers(requests, events + [e], start, end) && After(events + [e]) == Apply(After(events), e)
  {
    AfterMore(events, e);
    hide Allowed, Apply, After;
    var more := events + [e];
    forall i | 0 <= i < |more| ensures Allowed(requests[i], After(more[..i]), more[i], start, end) {
      assert more[..i] == events[..i];
      if i == |events| { assert events[..i] == events; }
    }
  }

  lemma AfterMore(events: seq<Event>, e: Event)
    ensures After(events + [e]) == Apply(After(events), e)
  {
    hide Apply;
    assert (events + [e])[..|events|] == events;
  }
}
