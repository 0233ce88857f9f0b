/** The bins of the heap: doubly linked lists threaded through the headers of holes
    (src/kernel/src/allocator/llist.c). Offsets follow `node_t`: hole, size, next, prev. */
module HeapBins {
  import opened Common
  import opened HeapMemory

  const SIZE_AT := 4
  const NEXT_AT := 8
  const PREV_AT := 12
  const HEADER := 16

  /** There is room for a header at `x`. */
  ghost predicate Fits(m: seq<byte>, x: int) {
    0 < x && x + HEADER <= |m| && x < WORD_LIMIT
  }

  /** Headers at different addresses do not overlap. */
  ghost predicate Apart(x: int, y: int) {
    x + HEADER <= y || y + HEADER <= x
  }

  /** A set of headers that fit memory and do not overlap. */
  ghost predicate Headers(m: seq<byte>, d: set<int>) {
    (forall x :: x in d ==> Fits(m, x)) && (forall x, y :: x in d && y in d && x != y ==> Apart(x, y))
  }

  /** Different members of `d`, in some order. */
  ghost predicate Among(s: seq<int>, d: set<int>) {
    && (forall i :: 0 <= i < |s| ==> s[i] in d)
    && (forall i, j :: 0 <= i < j < |s| ==> s[i] != s[j])
  }

  /** `head` starts a list through exactly `s`. The first node's `prev` is whatever was left there. */
  ghost predicate Linked(m: seq<byte>, head: int, s: seq<int>) {
    && (forall i, j :: 0 <= i < j < |s| && j == i + 1 ==>
         Word(m, s[i] + NEXT_AT) == s[j] && Word(m, s[j] + PREV_AT) == s[i])
    && (if s == [] then head == NULL else head == s[0] && Word(m, s[|s| - 1] + NEXT_AT) == NULL)
  }

  /** Only link fields of headers in `d` were written, and only those of headers in `s`. */
  ghost predicate OnlyLinks(m: seq<byte>, m': seq<byte>, d: set<int>, s: seq<int>) {
    && |m'| == |m|
    && (forall k :: 0 <= k < |m| && (forall x :: x in d ==> !(x + NEXT_AT <= k < x + HEADER)) ==> m'[k] == m[k])
    && (forall y :: y in d && y !in s ==>
         Word(m', y + NEXT_AT) == Word(m, y + NEXT_AT) && Word(m', y + PREV_AT) == Word(m, y + PREV_AT))
  }

  /** `k` is where a node of size `size` goes: after every node that is not larger, before the first that is. */
  ghost predicate InsertionPoint(m: seq<byte>, s: seq<int>, size: int, k: int) {
    && 0 <= k <= |s|
    && (forall i :: 0 <= i < k ==> Word(m, s[i] + SIZE_AT) <= size)
    && (k < |s| ==> Word(m, s[k] + SIZE_AT) > size)
  }

  ghost function Inserted(s: seq<int>, k: int, node: int): (t: seq<int>)
    requires 0 <= k <= |s|
    ensures |t| == |s| + 1
  {
    s[..k] + [node] + s[k..]
  }

  ghost function Without(s: seq<int>, k: int): (t: seq<int>)
    requires 0 <= k < |s|
    ensures |t| == |s| - 1
  {
    s[..k] + s[k + 1..]
  }

  lemma InsertedAt(s: seq<int>, k: int, node: int, i: int)
    requires 0 <= k <= |s| && 0 <= i <= |s|
    ensures Inserted(s, k, node)[i] == if i < k then s[i] else if i == k then node else s[i - 1]
  {
  }

  lemma InsertedAmong(s: seq<int>, k: int, node: int, d: set<int>)
    requires 0 <= k <= |s| && Among(s, d) && node in d && node !in s
    ensures Among(Inserted(s, k, node), d)
    ensures forall x :: x in Inserted(s, k, node) <==> x in s || x == node
  {
  }

  /** Links of `m'` after linking `node` in before the k-th node of `s`, in terms of the links of `m`. */
  ghost predicate LinkedAt(m: seq<byte>, m': seq<byte>, s: seq<int>, k: int, node: int)
    requires 0 <= k <= |s|
  {
    && (forall i :: 0 <= i < |s| && i != k - 1 ==> Word(m', s[i] + NEXT_AT) == Word(m, s[i] + NEXT_AT))
    && (forall i :: 0 <= i < |s| && i != k ==> Word(m', s[i] + PREV_AT) == Word(m, s[i] + PREV_AT))
    && Word(m', node + NEXT_AT) == (if k < |s| then s[k] else NULL)
    && (k > 0 ==> Word(m', node + PREV_AT) == s[k - 1] && Word(m', s[k - 1] + NEXT_AT) == node)
    && (k < |s| ==> Word(m', s[k] + PREV_AT) == node)
  }

  lemma LinkInPair(m: seq<byte>, m': seq<byte>, head: int, s: seq<int>, k: int, node: int, i: int)
    requires Linked(m, head, s) && 0 <= k <= |s| && LinkedAt(m, m', s, k, node) && 0 <= i < |s|
    ensures var t := Inserted(s, k, node);
      Word(m', t[i] + NEXT_AT) == t[i + 1] && Word(m', t[i + 1] + PREV_AT) == t[i]
  {
    hide Word, Inserted;
    InsertedAt(s, k, node, i);
    InsertedAt(s, k, node, i + 1);
    if i + 1 < k {
      assert Word(m, s[i] + NEXT_AT) == s[i + 1];
    } else if i > k {
      assert Word(m, s[i - 1] + NEXT_AT) == s[i];
    }
  }

  /** The links after an insertion, whatever order they were written in. */
  lemma LinkIn(m: seq<byte>, m': seq<byte>, head: int, s: seq<int>, k: int, node: int)
    requires Linked(m, head, s) && 0 <= k <= |s| && LinkedAt(m, m', s, k, node)
    ensures Linked(m', if k == 0 then node else head, Inserted(s, k, node))
  {
    hide Word, Inserted;
    var t := Inserted(s, k, node);
    forall i, j | 0 <= i < j < |t| && j == i + 1
      ensures Word(m', t[i] + NEXT_AT) == t[j] && Word(m', t[j] + PREV_AT) == t[i]
    {
      hide LinkedAt, Linked;
      LinkInPair(m, m', head, s, k, node, i);
    }
    InsertedAt(s, k, node, 0);
    InsertedAt(s, k, node, |s|);
  }

  lemma WithoutAt(s: seq<int>, k: int, i: int)
    requires 0 <= k < |s| && 0 <= i < |s| - 1
    ensures Without(s, k)[i] == if i < k then s[i] else s[i + 1]
  {
  }

  lemma WithoutAmong(s: seq<int>, k: int, d: set<int>)
    requires 0 <= k < |s| && Among(s, d)
    ensures Among(Without(s, k), d - {s[k]})
    ensures forall x :: x in Without(s, k) <==> x in s && x != s[k]
  {
  }

  /** Links of `m'` after unlinking the k-th node of `s`, in terms of the links of `m`. */
  ghost predicate UnlinkedAt(m: seq<byte>, m': seq<byte>, s: seq<int>, k: int)
    requires 0 <= k < |s|
  {
    && (forall i :: 0 <= i < |s| && i != k - 1 ==> Word(m', s[i] + NEXT_AT) == Word(m, s[i] + NEXT_AT))
    && (forall i :: 0 <= i < |s| && (i != k + 1 || k == 0) ==> Word(m', s[i] + PREV_AT) == Word(m, s[i] + PREV_AT))
    && (k > 0 ==> Word(m', s[k - 1] + NEXT_AT) == Word(m, s[k] + NEXT_AT))
    && (0 < k < |s| - 1 ==> Word(m', s[k + 1] + PREV_AT) == Word(m, s[k] + PREV_AT))
  }

  lemma LinkOutPair(m: seq<byte>, m': seq<byte>, head: int, s: seq<int>, k: int, i: int)
    requires Linked(m, head, s) && 0 <= k < |s| && UnlinkedAt(m, m', s, k) && 0 <= i < |s| - 2
    ensures var t := Without(s, k);
      Word(m', t[i] + NEXT_AT) == t[i + 1] && Word(m', t[i + 1] + PREV_AT) == t[i]
  {
    hide Word, Without;
    WithoutAt(s, k, i);
    WithoutAt(s, k, i + 1);
    if i == k - 1 {
      assert Word(m, s[k - 1] + NEXT_AT) == s[k] && Word(m, s[k] + NEXT_AT) == s[k + 1];
    } else {
      var i' := if i < k then i else i + 1;
      assert Word(m, s[i'] + NEXT_AT) == s[i' + 1];
    }
  }

  /** The links after a removal. */
  lemma LinkOut(m: seq<byte>, m': seq<byte>, head: int, s: seq<int>, k: int)
    requires Linked(m, head, s) && 0 <= k < |s| && UnlinkedAt(m, m', s, k)
    ensures Linked(m', if k == 0 then Word(m, s[k] + NEXT_AT) else head, Without(s, k))
  {
    hide Word, Without;
    var t := Without(s, k);
    forall i, j | 0 <= i < j < |t| && j == i + 1
      ensures Word(m', t[i] + NEXT_AT) == t[j] && Word(m', t[j] + PREV_AT) == t[i]
    {
      hide UnlinkedAt, Linked;
      LinkOutPair(m, m', head, s, k, i);
    }
    if |s| > 1 {
      WithoutAt(s, k, 0);
      WithoutAt(s, k, |s| - 2);
      assert k == 0 ==> Word(m, s[0] + NEXT_AT) == s[1];
    }
  }

  /** A store to a link field of one header leaves the link and size fields of every other header alone. */
  lemma LinkStoreElsewhere(m: seq<byte>, m': seq<byte>, d: set<int>, x: int, at: int, v: int, y: int)
    requires Headers(m, d) && x in d && y in d && x != y && (at == NEXT_AT || at == PREV_AT) && Stored(m, m', x + at, v)
    ensures Word(m', y + NEXT_AT) == Word(m, y + NEXT_AT) && Word(m', y + PREV_AT) == Word(m, y + PREV_AT)
    ensures Word(m', y + SIZE_AT) == Word(m, y + SIZE_AT)
  {
  }

  /** One link field of `x` was set, and nothing else among the headers `d`. */
  ghost predicate LinkSet(m: seq<byte>, m': seq<byte>, d: set<int>, x: int, at: int, v: int) {
    && |m'| == |m| && Word(m', x + at) == v
    && (forall y :: y in d && (y != x || at != NEXT_AT) ==> Word(m', y + NEXT_AT) == Word(m, y + NEXT_AT))
    && (forall y :: y in d && (y != x || at != PREV_AT) ==> Word(m', y + PREV_AT) == Word(m, y + PREV_AT))
    && (forall k :: 0 <= k < |m| && !(x + NEXT_AT <= k < x + HEADER) ==> m'[k] == m[k])
  }

  method SetLink(ram: Ram, x: int, at: int, v: int, ghost d: set<int>, ghost was: seq<byte>, ghost s: seq<int>)
    requires Headers(ram.bytes, d) && x in d && (at == NEXT_AT || at == PREV_AT) && 0 <= v < WORD_LIMIT
    requires OnlyLinks(was, ram.bytes, d, s) && x in s
    modifies ram
    ensures LinkSet(old(ram.bytes), ram.bytes, d, x, at, v) && Headers(ram.bytes, d)
    ensures OnlyLinks(was, ram.bytes, d, s)
  {
    hide Word;
    assert Fits(ram.bytes, x);
    ram.Store(x + at, v);
    forall y | y in d && y != x
      ensures Word(ram.bytes, y + NEXT_AT) == Word(old(ram.bytes), y + NEXT_AT)
      ensures Word(ram.bytes, y + PREV_AT) == Word(old(ram.bytes), y + PREV_AT)
    {
      LinkStoreElsewhere(old(ram.bytes), ram.bytes, d, x, at, v, y);
    }
  }

  lemma SizesKept(m: seq<byte>, m': seq<byte>, d: set<int>, s: seq<int>, y: int)
    requires OnlyLinks(m, m', d, s) && Headers(m, d) && y in d
    ensures Word(m', y + SIZE_AT) == Word(m, y + SIZE_AT)
  {
  }

  /** The search loop of `add_node`: stops at the first node larger than `size`. */
  method FindSpot(ram: Ram, head: int, size: int, ghost s: seq<int>, ghost d: set<int>)
    returns (current: int, previous: int, ghost k: int)
    requires Headers(ram.bytes, d) && Among(s, d) && Linked(ram.bytes, head, s)
    ensures InsertionPoint(ram.bytes, s, size, k)
    ensures current == (if k < |s| then s[k] else NULL) && previous == if k > 0 then s[k - 1] else NULL
  {
    hide Word;
    current, previous, k := head, NULL, 0;
    while current != NULL
      invariant 0 <= k <= |s|
      invariant current == (if k < |s| then s[k] else NULL) && previous == if k > 0 then s[k - 1] else NULL
      invariant forall i :: 0 <= i < k ==> Word(ram.bytes, s[i] + SIZE_AT) <= size
      decreases |s| - k
    {
      assert s[k] in d && Fits(ram.bytes, s[k]);
      var currentSize := ram.Load(current + SIZE_AT);
      if currentSize > size {
        break;
      }
      previous := current;
      current := ram.Load(current + NEXT_AT);
      k := k + 1;
    }
    assert k < |s| ==> s[k] in d && Fits(ram.bytes, s[k]);
  }

  /** The three ways `add_node` hooks a node in: at the end, in the middle, at the front. */
  method HookIn(ram: Ram, head: int, node: int, current: int, previous: int,
                ghost s: seq<int>, ghost k: int, ghost d: set<int>, ghost was: seq<byte>) returns (head': int)
    requires Headers(ram.bytes, d) && Among(s, d) && node in d && node !in s && s != [] && 0 <= k <= |s| && head == s[0]
    requires current == (if k < |s| then s[k] else NULL) && previous == if k > 0 then s[k - 1] else NULL
    requires Linked(ram.bytes, head, s) && Word(ram.bytes, node + NEXT_AT) == NULL
    requires OnlyLinks(was, ram.bytes, d, s + [node])
    modifies ram
    ensures Linked(ram.bytes, head', Inserted(s, k, node)) && OnlyLinks(was, ram.bytes, d, s + [node])
  {
    hide Word, Inserted, OnlyLinks, Linked, LinkedAt, Headers, Among;
    ghost var m := ram.bytes;
    head' := head;
    NotNull(m, s, k, d);
    if current == NULL {
      HookEnd(ram, node, previous, s, d, was);
    } else if previous != NULL {
      HookBetween(ram, node, current, previous, s, k, d, was);
    } else {
      HookFront(ram, head, node, s, d, was);
      head' := node;
    }
    LinkIn(m, ram.bytes, head, s, k, node);
  }

  lemma NotNull(m: seq<byte>, s: seq<int>, k: int, d: set<int>)
    requires Headers(m, d) && Among(s, d) && 0 <= k <= |s|
    ensures (k > 0 ==> s[k - 1] != NULL) && (k < |s| ==> s[k] != NULL)
  {
    if k > 0 { assert s[k - 1] in d && Fits(m, s[k - 1]); }
    if k < |s| { assert s[k] in d && Fits(m, s[k]); }
  }

  method HookEnd(ram: Ram, node: int, previous: int, ghost s: seq<int>, ghost d: set<int>, ghost was: seq<byte>)
    requires Headers(ram.bytes, d) && Among(s, d) && node in d && node !in s && s != [] && previous == s[|s| - 1]
    requires Word(ram.bytes, node + NEXT_AT) == NULL && OnlyLinks(was, ram.bytes, d, s + [node])
    modifies ram
    ensures LinkedAt(old(ram.bytes), ram.bytes, s, |s|, node) && OnlyLinks(was, ram.bytes, d, s + [node])
  {
    hide Word, OnlyLinks;
    ghost var t := s + [node];
    Members(ram.bytes, s, node, d);
    SetLink(ram, previous, NEXT_AT, node, d, was, t);
    SetLink(ram, node, PREV_AT, previous, d, was, t);
  }

  method HookBetween(ram: Ram, node: int, current: int, previous: int, ghost s: seq<int>, ghost k: int, ghost d: set<int>,
                     ghost was: seq<byte>)
    requires Headers(ram.bytes, d) && Among(s, d) && node in d && node !in s && 0 < k < |s| && current == s[k] && previous == s[k - 1]
    requires OnlyLinks(was, ram.bytes, d, s + [node])
    modifies ram
    ensures LinkedAt(old(ram.bytes), ram.bytes, s, k, node) && OnlyLinks(was, ram.bytes, d, s + [node])
  {
    hide Word, OnlyLinks;
    ghost var t := s + [node];
    Members(ram.bytes, s, node, d);
    SetLink(ram, node, NEXT_AT, current, d, was, t);
    SetLink(ram, previous, NEXT_AT, node, d, was, t);
    SetLink(ram, node, PREV_AT, previous, d, was, t);
    SetLink(ram, current, PREV_AT, node, d, was, t);
  }

  method HookFront(ram: Ram, head: int, node: int, ghost s: seq<int>, ghost d: set<int>, ghost was: seq<byte>)
    requires Headers(ram.bytes, d) && Among(s, d) && node in d && node !in s && s != [] && head == s[0]
    requires OnlyLinks(was, ram.bytes, d, s + [node])
    modifies ram
    ensures LinkedAt(old(ram.bytes), ram.bytes, s, 0, node) && OnlyLinks(was, ram.bytes, d, s + [node])
  {
    hide Word, OnlyLinks;
    ghost var t := s + [node];
    Members(ram.bytes, s, node, d);
    SetLink(ram, node, NEXT_AT, head, d, was, t);
    SetLink(ram, head, PREV_AT, node, d, was, t);
  }

  lemma Members(m: seq<byte>, s: seq<int>, node: int, d: set<int>)
    requires Headers(m, d) && Among(s, d) && node in d && node !in s
    ensures node in s + [node] && forall i :: 0 <= i < |s| ==> s[i] in s + [node] && s[i] in d && Fits(m, s[i]) && s[i] != node
    ensures Fits(m, node)
  {
  }

  /** Clears both links of a node that is in no list. */
  method ClearLinks(ram: Ram, head: int, node: int, ghost s: seq<int>, ghost d: set<int>)
    requires Headers(ram.bytes, d) && Among(s, d) && node in d && node !in s && Linked(ram.bytes, head, s)
    modifies ram
    ensures Headers(ram.bytes, d) && Linked(ram.bytes, head, s) && Word(ram.bytes, node + NEXT_AT) == NULL
    ensures OnlyLinks(old(ram.bytes), ram.bytes, d, s + [node])
    ensures forall y :: y in d ==> Word(ram.bytes, y + SIZE_AT) == Word(old(ram.bytes), y + SIZE_AT)
  {
    hide Word;
    ghost var m, t := ram.bytes, s + [node];
    SetLink(ram, node, NEXT_AT, NULL, d, m, t);
    SetLink(ram, node, PREV_AT, NULL, d, m, t);
    forall y | y in d
      ensures Word(ram.bytes, y + SIZE_AT) == Word(m, y + SIZE_AT)
    {
      SizesKept(m, ram.bytes, d, t, y);
    }
  }

  /** `add_node`: inserts `node` into the bin whose list is `s`. */
  method AddNode(ram: Ram, head: int, node: int, ghost s: seq<int>, ghost d: set<int>) returns (head': int, ghost k: int)
    requires Headers(ram.bytes, d) && Among(s, d) && node in d && node !in s && Linked(ram.bytes, head, s)
    modifies ram
    ensures InsertionPoint(old(ram.bytes), s, Word(old(ram.bytes), node + SIZE_AT), k)
    ensures Linked(ram.bytes, head', Inserted(s, k, node))
    ensures OnlyLinks(old(ram.bytes), ram.bytes, d, s + [node])
  {
    hide Word, Inserted, OnlyLinks;
    ghost var m := ram.bytes;
    assert Fits(m, node) && (s != [] ==> Fits(m, s[0]));
    ClearLinks(ram, head, node, s, d);
    if head == NULL {
      head', k := node, 0;
      LinkIn(ram.bytes, ram.bytes, head, s, k, node);
      return;
    }
    var size := ram.Load(node + SIZE_AT);
    var current, previous;
    current, previous, k := FindSpot(ram, head, size, s, d);
    head' := HookIn(ram, head, node, current, previous, s, k, d, m);
  }

  /** `remove_node`: unlinks the k-th node of the bin whose list is `s`. */
  method RemoveNode(ram: Ram, head: int, node: int, ghost s: seq<int>, ghost k: int, ghost d: set<int>) returns (head': int)
    requires Headers(ram.bytes, d) && Among(s, d) && 0 <= k < |s| && s[k] == node && Linked(ram.bytes, head, s)
    modifies ram
    ensures Linked(ram.bytes, head', Without(s, k))
    ensures OnlyLinks(old(ram.bytes), ram.bytes, d, s)
  {
    hide Word, Without;
    ghost var m := ram.bytes;
    assert forall i :: 0 <= i < |s| ==> s[i] in d && Fits(m, s[i]);
    if head == node {
      head' := ram.Load(head + NEXT_AT);
      LinkOut(m, m, head, s, k);
      return;
    }
    head' := head;
    var temp := Seek(ram, head, node, s, k, d);
    assert Word(m, s[k - 1] + NEXT_AT) == s[k] && (k + 1 < |s| ==> Word(m, s[k] + NEXT_AT) == s[k + 1]);
    UnhookAt(ram, temp, s, k, d);
    LinkOut(m, ram.bytes, head, s, k);
  }

  /** The search loop of `remove_node`. */
  method Seek(ram: Ram, head: int, node: int, ghost s: seq<int>, ghost k: int, ghost d: set<int>) returns (temp: int)
    requires Headers(ram.bytes, d) && Among(s, d) && 0 < k < |s| && s[k] == node && Linked(ram.bytes, head, s)
    ensures temp == node
  {
    hide Word;
    ghost var m := ram.bytes;
    assert forall i :: 0 <= i < |s| ==> s[i] in d && Fits(m, s[i]);
    assert Word(m, s[0] + NEXT_AT) == s[1];
    temp := ram.Load(head + NEXT_AT);
    ghost var i := 1;
    while temp != node
      invariant 1 <= i <= k && temp == s[i]
      decreases k - i
    {
      assert Word(m, s[i] + NEXT_AT) == s[i + 1];
      temp := ram.Load(temp + NEXT_AT);
      i := i + 1;
    }
  }

  /** The two ways `remove_node` unhooks a node that is not the first. */
  method UnhookAt(ram: Ram, temp: int, ghost s: seq<int>, ghost k: int, ghost d: set<int>)
    requires Headers(ram.bytes, d) && Among(s, d) && 0 < k < |s| && s[k] == temp
    requires Word(ram.bytes, temp + PREV_AT) == s[k - 1]
    requires Word(ram.bytes, temp + NEXT_AT) == if k + 1 < |s| then s[k + 1] else NULL
    modifies ram
    ensures OnlyLinks(old(ram.bytes), ram.bytes, d, s)
    ensures UnlinkedAt(old(ram.bytes), ram.bytes, s, k)
  {
    hide Word, OnlyLinks;
    ghost var m := ram.bytes;
    assert OnlyLinks(m, m, d, s) by { NothingWritten(m, d, s); }
    assert forall i :: 0 <= i < |s| ==> s[i] in d && s[i] in s && Fits(m, s[i]);
    var next := ram.Load(temp + NEXT_AT);
    var prev := ram.Load(temp + PREV_AT);
    if next == NULL {
      SetLink(ram, prev, NEXT_AT, NULL, d, m, s);
    } else {
      SetLink(ram, prev, NEXT_AT, next, d, m, s);
      SetLink(ram, next, PREV_AT, prev, d, m, s);
    }
  }

  lemma NothingWritten(m: seq<byte>, d: set<int>, s: seq<int>)
    ensures OnlyLinks(m, m, d, s)
  {
  }

  /** `get_best_fit`: the first node large enough, if any. */
  method GetBestFit(ram: Ram, head: int, size: int, ghost s: seq<int>, ghost d: set<int>) returns (found: int, ghost k: int)
    requires Headers(ram.bytes, d) && Among(s, d) && Linked(ram.bytes, head, s)
    ensures 0 <= k <= |s| && found == if k < |s| then s[k] else NULL
    ensures found == NULL <==> forall i :: 0 <= i < |s| ==> Word(ram.bytes, s[i] + SIZE_AT) < size
    ensures k < |s| ==> found != NULL && Word(ram.bytes, found + SIZE_AT) >= size
    ensures forall i :: 0 <= i < k ==> Word(ram.bytes, s[i] + SIZE_AT) < size
  {
    hide Word;
    assert forall i :: 0 <= i < |s| ==> s[i] in d && Fits(ram.bytes, s[i]);
    found, k := head, 0;
    while found != NULL
      invariant 0 <= k <= |s| && found == if k < |s| then s[k] else NULL
      invariant forall i :: 0 <= i < k ==> Word(ram.bytes, s[i] + SIZE_AT) < size
      decreases |s| - k
    {
      var nodeSize := ram.Load(found + SIZE_AT);
      if nodeSize >= size {
        return;
      }
      assert k + 1 < |s| ==> Word(ram.bytes, s[k] + NEXT_AT) == s[k + 1];
      found := ram.Load(found + NEXT_AT);
      k := k + 1;
    }
  }
}
