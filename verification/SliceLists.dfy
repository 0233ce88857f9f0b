/** The slice-info records of the physical memory manager and the four intrusive,
    doubly linked lists threaded through them (src/kernel/src/vm/pmm.c:320-348).
    Memory is a map from the address of a record to the record; address 0 is NULL. */
module SliceLists {
  import opened Common

  datatype MemoryType = L1PageTable | L2PageTable | Page | BucketInfo

  /** One `struct MemorySliceInfo`. */
  datatype Info = Info(typ: MemoryType, filled: bv8, reserved: bool, next: int, prev: int, slice: int)

  /** The manager's four lists. */
  datatype Owner = Unused | Allocated | L2Partial | PagePartial

  /** One value for each list: the four heads of `struct PhysicalMemoryManager`, or the four list contents. */
  datatype PerList<T> = PerList(unused: T, full: T, l2Partial: T, pagePartial: T) {
    function Of(o: Owner): T {
      match o
      case Unused => unused
      case Allocated => full
      case L2Partial => l2Partial
      case PagePartial => pagePartial
    }

    function With(o: Owner, x: T): (c: PerList<T>)
      ensures c.Of(o) == x && forall o' :: o' != o ==> c.Of(o') == Of(o')
    {
      match o
      case Unused => this.(unused := x)
      case Allocated => this.(full := x)
      case L2Partial => this.(l2Partial := x)
      case PagePartial => this.(pagePartial := x)
    }
  }

  /** What zeroed memory reads as. */
  const ZERO_INFO := Info(L1PageTable, 0, false, NULL, NULL, NULL)

  type Infos = map<int, Info>

  ghost predicate Distinct(s: seq<int>) {
    forall i, j :: 0 <= i < j < |s| ==> s[i] != s[j]
  }

  /** `head` is the head of a well-formed doubly linked list through exactly the records `s`, in order. */
  ghost predicate Chain(m: Infos, head: int, s: seq<int>) {
    && Distinct(s)
    && (forall i :: 0 <= i < |s| ==> s[i] != NULL && s[i] in m)
    && (forall i, j :: 0 <= i < j < |s| && j == i + 1 ==> m[s[i]].next == s[j] && m[s[j]].prev == s[i])
    && (if s == [] then head == NULL
        else head == s[0] && m[s[0]].prev == NULL && m[s[|s| - 1]].next == NULL)
  }

  // ----- The three list helpers, as updates of memory -----

  function Push(m: Infos, head: int, entry: int): Infos
    requires entry in m && (head == NULL || head in m)
  {
    var m1 := if head != NULL then m[head := m[head].(prev := entry)] else m;
    m1[entry := m1[entry].(next := head)]
  }

  function Pop(m: Infos, head: int): Infos
    requires head in m && (m[head].next == NULL || m[head].next in m)
  {
    var rest := m[head].next;
    var m1 := if rest != NULL then m[rest := m[rest].(prev := NULL)] else m;
    m1[head := m1[head].(next := NULL, prev := NULL)]
  }

  function Remove(m: Infos, entry: int): Infos
    requires entry in m
    requires m[entry].next == NULL || m[entry].next in m
    requires m[entry].prev == NULL || m[entry].prev in m
  {
    var e := m[entry];
    var m1 := if e.next != NULL then m[e.next := m[e.next].(prev := e.prev)] else m;
    var m2 := if e.prev != NULL then m1[e.prev := m1[e.prev].(next := e.next)] else m1;
    m2[entry := m2[entry].(next := NULL, prev := NULL)]
  }

  /** Same record up to its two links. */
  ghost predicate SameBody(a: Info, b: Info) {
    a.(next := NULL, prev := NULL) == b.(next := NULL, prev := NULL)
  }

  /** Every record is still there and differs at most in its links. */
  ghost predicate Relinked(m: Infos, m': Infos) {
    m'.Keys == m.Keys && forall x :: x in m ==> SameBody(m[x], m'[x])
  }

  /** Pushing a record whose `prev` is already NULL onto a well-formed list gives a well-formed list. */
  lemma PushChain(m: Infos, head: int, s: seq<int>, entry: int)
    requires Chain(m, head, s) && entry in m && entry != NULL && entry !in s && m[entry].prev == NULL
    ensures Chain(Push(m, head, entry), entry, [entry] + s)
    ensures Relinked(m, Push(m, head, entry))
  {
  }

  lemma PopChain(m: Infos, head: int, s: seq<int>)
    requires Chain(m, head, s) && s != []
    ensures m[head].next == NULL || m[head].next in m
    ensures m[head].next == if |s| > 1 then s[1] else NULL
    ensures Chain(Pop(m, head), m[head].next, s[1..])
    ensures Relinked(m, Pop(m, head))
    ensures Pop(m, head)[head].prev == NULL && head !in s[1..]
  {
  }

  /** Unlinking the k-th record; the head moves only when the first record goes. */
  lemma RemoveChain(m: Infos, head: int, s: seq<int>, k: nat)
    requires Chain(m, head, s) && k < |s|
    ensures var e := m[s[k]];
            && (e.next == NULL || e.next in m) && (e.prev == NULL || e.prev in m)
            && Chain(Remove(m, s[k]), if e.prev != NULL then head else e.next, s[..k] + s[k + 1..])
            && Relinked(m, Remove(m, s[k]))
            && Remove(m, s[k])[s[k]].prev == NULL
  {
    var x, t := s[k], s[..k] + s[k + 1..];
    if k + 1 < |s| {
      assert m[x].next == s[k + 1];
    }
    if k > 0 {
      assert m[x].prev == s[k - 1];
    }
    var m' := Remove(m, x);
    forall i | 0 <= i < |t|
      ensures t[i] == s[if i < k then i else i + 1]
    {
    }
    forall i, j | 0 <= i < j < |t| && j == i + 1
      ensures m'[t[i]].next == t[j] && m'[t[j]].prev == t[i]
    {
      var i', j' := if i < k then i else i + 1, if j < k then j else j + 1;
      assert t[i] == s[i'] && t[j] == s[j'];
      if i' + 1 == j' {
        assert m[s[i']].next == s[j'];
      }
    }
  }

  /** A list none of whose records is written is still well formed. */
  lemma ChainFrame(m: Infos, m': Infos, head: int, s: seq<int>)
    requires Chain(m, head, s)
    requires forall x :: x in s ==> x in m' && m'[x].next == m[x].next && m'[x].prev == m[x].prev
    ensures Chain(m', head, s)
  {
  }

  // ----- The four lists together -----

  /** List `o` is well formed and runs through exactly the records it owns. */
  ghost predicate ListOk(m: Infos, heads: PerList<int>, lists: PerList<seq<int>>, owner: map<int, Owner>, o: Owner) {
    Chain(m, heads.Of(o), lists.Of(o)) && forall x :: x in lists.Of(o) <==> x in owner && owner[x] == o
  }

  /** Every owned record is on exactly one of the four lists, the one that owns it. */
  ghost predicate Lists(m: Infos, heads: PerList<int>, lists: PerList<seq<int>>, owner: map<int, Owner>) {
    forall o :: ListOk(m, heads, lists, owner, o)
  }

  lemma PushLists(m: Infos, heads: PerList<int>, lists: PerList<seq<int>>, owner: map<int, Owner>, o: Owner, entry: int)
    requires Lists(m, heads, lists, owner)
    requires entry in m && entry != NULL && entry !in owner && m[entry].prev == NULL
    ensures heads.Of(o) == NULL || heads.Of(o) in m
    ensures Relinked(m, Push(m, heads.Of(o), entry))
    ensures Lists(Push(m, heads.Of(o), entry), heads.With(o, entry), lists.With(o, [entry] + lists.Of(o)), owner[entry := o])
  {
    assert ListOk(m, heads, lists, owner, o);
    PushChain(m, heads.Of(o), lists.Of(o), entry);
    var m', heads', lists', owner' := Push(m, heads.Of(o), entry), heads.With(o, entry),
                                      lists.With(o, [entry] + lists.Of(o)), owner[entry := o];
    forall o'
      ensures ListOk(m', heads', lists', owner', o')
    {
      assert ListOk(m, heads, lists, owner, o');
      if o' != o {
        ChainFrame(m, m', heads.Of(o'), lists.Of(o'));
      }
    }
  }

  lemma PopLists(m: Infos, heads: PerList<int>, lists: PerList<seq<int>>, owner: map<int, Owner>, o: Owner)
    requires Lists(m, heads, lists, owner) && heads.Of(o) != NULL
    ensures var top := heads.Of(o);
      && lists.Of(o) != [] && lists.Of(o)[0] == top
      && top in m && top in owner && owner[top] == o
      && (m[top].next == NULL || m[top].next in m)
      && Relinked(m, Pop(m, top)) && Pop(m, top)[top].prev == NULL
      && Lists(Pop(m, top), heads.With(o, m[top].next), lists.With(o, lists.Of(o)[1..]), owner - {top})
  {
    var top := heads.Of(o);
    assert ListOk(m, heads, lists, owner, o);
    assert top in lists.Of(o);
    PopChain(m, top, lists.Of(o));
    forall o'
      ensures ListOk(Pop(m, top), heads.With(o, m[top].next), lists.With(o, lists.Of(o)[1..]), owner - {top}, o')
    {
      assert ListOk(m, heads, lists, owner, o');
      if o' != o {
        ChainFrame(m, Pop(m, top), heads.Of(o'), lists.Of(o'));
      }
    }
  }

  /** The head a removal leaves behind. */
  function HeadAfterRemove(m: Infos, head: int, entry: int): int
    requires entry in m
  {
    if m[entry].prev != NULL then head else m[entry].next
  }

  lemma RemoveLists(m: Infos, heads: PerList<int>, lists: PerList<seq<int>>, owner: map<int, Owner>, entry: int, k: nat)
    requires Lists(m, heads, lists, owner) && entry in owner
    requires k < |lists.Of(owner[entry])| && lists.Of(owner[entry])[k] == entry
    ensures var o := owner[entry];
            var s := lists.Of(o);
      && entry in m && entry != NULL
      && (m[entry].next == NULL || m[entry].next in m)
      && (m[entry].prev == NULL || m[entry].prev in m)
      && Relinked(m, Remove(m, entry)) && Remove(m, entry)[entry].prev == NULL
      && Lists(Remove(m, entry), heads.With(o, HeadAfterRemove(m, heads.Of(o), entry)),
               lists.With(o, s[..k] + s[k + 1..]), owner - {entry})
  {
    var o := owner[entry];
    var s := lists.Of(o);
    assert ListOk(m, heads, lists, owner, o);
    RemoveChain(m, heads.Of(o), s, k);
    if k > 0 { assert m[s[k]].prev == s[k - 1]; }
    if k + 1 < |s| { assert m[s[k]].next == s[k + 1]; }
    var m', heads', lists' := Remove(m, entry), heads.With(o, HeadAfterRemove(m, heads.Of(o), entry)),
                              lists.With(o, s[..k] + s[k + 1..]);
    forall o'
      ensures ListOk(m', heads', lists', owner - {entry}, o')
    {
      assert ListOk(m, heads, lists, owner, o');
      if o' != o {
        ChainFrame(m, m', heads.Of(o'), lists.Of(o'));
      }
    }
  }

  /** Changing a record's body, but not its links, leaves the lists alone. */
  lemma RewriteLists(m: Infos, heads: PerList<int>, lists: PerList<seq<int>>, owner: map<int, Owner>, x: int, e: Info)
    requires Lists(m, heads, lists, owner) && x in m && e.next == m[x].next && e.prev == m[x].prev
    ensures Lists(m[x := e], heads, lists, owner)
  {
    var m' := m[x := e];
    forall o
      ensures ListOk(m', heads, lists, owner, o)
    {
      assert ListOk(m, heads, lists, owner, o);
      ChainFrame(m, m', heads.Of(o), lists.Of(o));
    }
  }

  /** A head is NULL exactly when its list is empty. */
  lemma HeadOf(m: Infos, heads: PerList<int>, lists: PerList<seq<int>>, owner: map<int, Owner>, o: Owner)
    requires Lists(m, heads, lists, owner)
    ensures heads.Of(o) == NULL <==> lists.Of(o) == []
    ensures heads.Of(o) != NULL ==> heads.Of(o) in m && heads.Of(o) in owner && owner[heads.Of(o)] == o
  {
    assert ListOk(m, heads, lists, owner, o);
    if lists.Of(o) != [] {
      assert lists.Of(o)[0] in lists.Of(o);
    }
  }

  /** A record that is on no list can be written freely. */
  lemma NewRecordLists(m: Infos, heads: PerList<int>, lists: PerList<seq<int>>, owner: map<int, Owner>, a: int, e: Info)
    requires Lists(m, heads, lists, owner) && a !in m
    ensures Lists(m[a := e], heads, lists, owner)
  {
    var m' := m[a := e];
    forall o
      ensures ListOk(m', heads, lists, owner, o)
    {
      assert ListOk(m, heads, lists, owner, o);
      ChainFrame(m, m', heads.Of(o), lists.Of(o));
    }
  }
}
