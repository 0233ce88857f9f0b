/** Several address spaces over one physical memory manager: they never share a frame or a second-level table, and what happens in one
    is not seen in the others. */
module Vm2Spaces {
  import opened Common
  import opened SliceLists
  import opened Pmm
  import opened Vm2
  import opened Mmu

  /** The tables of two spaces have no second-level table and no frame in common. */
  ghost predicate Apart(l1: seq<int>, k1: seq<int>, words: map<int, int>)
    requires |l1| == |k1| == L1_ENTRIES
  {
    && (forall i, k :: 0 <= i < L1_ENTRIES && 0 <= k < L1_ENTRIES && IsCoarse(l1[i]) && IsCoarse(k1[k]) ==> FindL2(l1[i]) != FindL2(k1[k]))
    && (forall u, w :: 0 <= u < VIRTUAL_PAGES && 0 <= w < VIRTUAL_PAGES && PageEntry(l1, words, u) != 0 && PageEntry(k1, words, w) != 0 ==>
          Frame(PageEntry(l1, words, u)) != Frame(PageEntry(k1, words, w)))
  }

  ghost predicate Coexist(a: AddressSpace, b: AddressSpace)
    reads a, a.pmm, a.l1, b, b.pmm, b.l1
  {
    a.Valid() && b.Valid() && a.pmm == b.pmm && a.l1 != b.l1 && Apart(a.l1[..], b.l1[..], a.pmm.words)
  }

  /** A space none of whose tables has changed shows the same walk. */
  lemma SameWalk(k1: seq<int>, words: map<int, int>, words': map<int, int>, live: iset<Block>)
    requires TablesOk(k1, words, live)
    requires forall k :: 0 <= k < L1_ENTRIES && IsCoarse(k1[k]) ==> SameWords(words, words', Block(L2PageTable, FindL2(k1[k])))
    ensures forall u :: 0 <= u < VIRTUAL_PAGES ==> PageEntry(k1, words', u) == PageEntry(k1, words, u)
  {
    hide FindL2, IsCoarse, Word, Frame;
    forall u | 0 <= u < VIRTUAL_PAGES ensures PageEntry(k1, words', u) == PageEntry(k1, words, u) {
      var e := k1[u / L2_ENTRIES];
      if IsCoarse(e) {
        var x := FindL2(e) + 4 * (u % L2_ENTRIES);
        assert SameWords(words, words', Block(L2PageTable, FindL2(e)));
        assert Word(words', x) == Word(words, x);
      }
    }
  }

  /** ... and is sound as long as its blocks stay live. */
  lemma StillOk(k1: seq<int>, words: map<int, int>, words': map<int, int>, live: iset<Block>, live': iset<Block>)
    requires TablesOk(k1, words, live) && forall u :: 0 <= u < VIRTUAL_PAGES ==> PageEntry(k1, words', u) == PageEntry(k1, words, u)
    requires forall k :: 0 <= k < L1_ENTRIES && IsCoarse(k1[k]) ==> Block(L2PageTable, FindL2(k1[k])) in live'
    requires forall u :: 0 <= u < VIRTUAL_PAGES && PageEntry(k1, words, u) != 0 ==> Block(Page, Frame(PageEntry(k1, words, u))) in live'
    ensures TablesOk(k1, words', live')
  {
    hide FindL2, IsCoarse, PageEntry, Frame;
  }

  /** What a map or an unmap in space `a` leaves of space `b`. */
  lemma OtherSpace(k1: seq<int>, l1: seq<int>, words: map<int, int>, words': map<int, int>, live: iset<Block>, live': iset<Block>)
    requires |l1| == L1_ENTRIES && TablesOk(k1, words, live) && Apart(l1, k1, words)
    requires forall c :: c in live && (forall i :: 0 <= i < L1_ENTRIES && IsCoarse(l1[i]) ==> c != Block(L2PageTable, FindL2(l1[i]))) ==>
      SameWords(words, words', c)
    requires forall c :: c in live && c !in live' ==> FrameOf(l1, words, c)
    ensures TablesOk(k1, words', live') && forall u :: 0 <= u < VIRTUAL_PAGES ==> PageEntry(k1, words', u) == PageEntry(k1, words, u)
  {
    hide FindL2, IsCoarse, PageEntry, Frame, SameWords;
    SameWalk(k1, words, words', live);
    StillOk(k1, words, words', live, live');
  }

  /** The block is the frame of a mapped page of the space. */
  ghost predicate FrameOf(l1: seq<int>, words: map<int, int>, c: Block)
    requires |l1| == L1_ENTRIES
  {
    exists u :: 0 <= u < VIRTUAL_PAGES && PageEntry(l1, words, u) != 0 && c == Block(Page, Frame(PageEntry(l1, words, u)))
  }

  /** The spaces stay apart: whatever is new in space `a` was not live before. */
  lemma StillApart(l1: seq<int>, l1': seq<int>, k1: seq<int>, words: map<int, int>, words': map<int, int>, live: iset<Block>)
    requires |l1| == |l1'| == L1_ENTRIES && TablesOk(k1, words, live) && Apart(l1, k1, words)
    requires forall u :: 0 <= u < VIRTUAL_PAGES ==> PageEntry(k1, words', u) == PageEntry(k1, words, u)
    requires forall i :: 0 <= i < L1_ENTRIES && IsCoarse(l1'[i]) ==> l1'[i] == l1[i] || Block(L2PageTable, FindL2(l1'[i])) !in live
    requires forall u :: 0 <= u < VIRTUAL_PAGES && PageEntry(l1', words', u) != 0 ==>
      PageEntry(l1', words', u) == PageEntry(l1, words, u) || Block(Page, Frame(PageEntry(l1', words', u))) !in live
    ensures Apart(l1', k1, words')
  {
    hide FindL2, IsCoarse, PageEntry, Frame;
  }

  /** Every first-level table that the manager has handed out is still live and has the words it had. */
  ghost predicate FirstLevelsKept(words: map<int, int>, words': map<int, int>, live: iset<Block>, live': iset<Block>) {
    forall c :: c in live && c.kind == L1PageTable ==> c in live' && SameWords(words, words', c)
  }

  /** No frame and no second-level table of a space overlaps a live first-level table. */
  lemma FirstLevelAlone(s: AddressSpace, p: int)
    requires s.Valid() && s.pmm.Live(Block(L1PageTable, p))
    ensures forall u :: 0 <= u < VIRTUAL_PAGES && s.Entry(u) != 0 ==> Disjoint(Block(L1PageTable, p), Block(Page, Frame(s.Entry(u))))
    ensures forall i :: 0 <= i < L1_ENTRIES && IsCoarse(s.l1[i]) ==> Disjoint(Block(L1PageTable, p), Block(L2PageTable, FindL2(s.l1[i])))
  {
    hide Layout.Holds, Lists, Layout.Live, PageEntry, FindL2, Frame, IsCoarse, Disjoint, Layout.AllFindable, Separate;
    LiveSetSeparate(s.pmm);
    AloneIn(s.l1[..], s.pmm.words, LiveSet(s.pmm), Block(L1PageTable, p));
  }

  lemma AloneIn(l1: seq<int>, words: map<int, int>, live: iset<Block>, c: Block)
    requires TablesOk(l1, words, live) && Separate(live) && c in live && c.kind == L1PageTable
    ensures forall u :: 0 <= u < VIRTUAL_PAGES && PageEntry(l1, words, u) != 0 ==> Disjoint(c, Block(Page, Frame(PageEntry(l1, words, u))))
    ensures forall i :: 0 <= i < L1_ENTRIES && IsCoarse(l1[i]) ==> Disjoint(c, Block(L2PageTable, FindL2(l1[i])))
  {
    hide PageEntry, FindL2, Frame, IsCoarse, Disjoint;
  }

  /** A map in one space is not seen in the other. */
  method MapInOne(a: AddressSpace, b: AddressSpace, v: int, remap: bool, perms: PagePermission) returns (r: MapResult)
    requires Coexist(a, b) && 0 <= v < ADDRESS_SPACE && a.CanMap(v)
    modifies a.pmm, a.l1
    ensures r.Fatal? <==> !remap && old(a.Entry(PageNumber(v))) != 0
    ensures !r.Fatal? ==> Coexist(a, b) && forall u :: 0 <= u < VIRTUAL_PAGES ==> b.Entry(u) == old(b.Entry(u))
    ensures !r.Fatal? ==> FirstLevelsKept(old(a.pmm.words), a.pmm.words, old(LiveSet(a.pmm)), LiveSet(a.pmm))
  {
    hide Layout.Holds, Lists, Layout.Live, TablesOk, PageEntry, SmallEntry, Frame, FindL2, IsCoarse, Layout.AllFindable, SameWords, Apart;
    ghost var l1, k1, words, live := a.l1[..], b.l1[..], a.pmm.words, LiveSet(a.pmm);
    r := a.MapPage(v, remap, perms);
    if !r.Fatal? {
      ghost var l1', words', live' := a.l1[..], a.pmm.words, LiveSet(a.pmm);
      assert b.l1[..] == k1;
      forall c | c in live && (forall i :: 0 <= i < L1_ENTRIES && IsCoarse(l1[i]) ==> c != Block(L2PageTable, FindL2(l1[i])))
        ensures SameWords(words, words', c)
      {
        assert old(a.OtherTable(v, c));
      }
      assert live <= live' by { forall c | c in live ensures c in live' { assert old(a.pmm.Live(c)); } }
      OtherSpace(k1, l1, words, words', live, live');
      forall u | 0 <= u < VIRTUAL_PAGES && PageEntry(l1', words', u) != 0
        ensures PageEntry(l1', words', u) == PageEntry(l1, words, u) || Block(Page, Frame(PageEntry(l1', words', u))) !in live
      {
        if u != PageNumber(v) || !r.Mapped? { assert a.Entry(u) == old(a.Entry(u)); }
      }
      StillApart(l1, l1', k1, words, words', live);
    }
  }

  /** An unmap in one space is not seen in the other. */
  method UnmapInOne(a: AddressSpace, b: AddressSpace, v: int)
    requires Coexist(a, b) && 0 <= v < ADDRESS_SPACE && (IsCoarse(a.l1[L1Index(v)]) ==> a.Entry(PageNumber(v)) != 0)
    modifies a.pmm
    ensures Coexist(a, b) && a.Entry(PageNumber(v)) == 0 && forall u :: 0 <= u < VIRTUAL_PAGES ==> b.Entry(u) == old(b.Entry(u))
    ensures FirstLevelsKept(old(a.pmm.words), a.pmm.words, old(LiveSet(a.pmm)), LiveSet(a.pmm))
  {
    hide Layout.Holds, Lists, Layout.Live, TablesOk, PageEntry, SmallEntry, Frame;
    hide FindL2, IsCoarse, Layout.AllFindable, SameWords, Apart, FrameOf;
    ghost var l1, k1, words, live := a.l1[..], b.l1[..], a.pmm.words, LiveSet(a.pmm);
    a.UnmapPage(v);
    ghost var words', live' := a.pmm.words, LiveSet(a.pmm);
    forall c | c in live && (forall i :: 0 <= i < L1_ENTRIES && IsCoarse(l1[i]) ==> c != Block(L2PageTable, FindL2(l1[i])))
      ensures SameWords(words, words', c)
    {
      assert a.OtherTable(v, c);
    }
    forall c | c in live && c !in live' ensures FrameOf(l1, words, c) {
      assert old(a.pmm.Live(c)) && !a.pmm.Live(c);
      IsFrame(l1, words, PageNumber(v), c);
    }
    OtherSpace(k1, l1, words, words', live, live');
    assert PageEntry(l1, words', PageNumber(v)) == 0;
    forall u | 0 <= u < VIRTUAL_PAGES && PageEntry(l1, words', u) != 0 ensures PageEntry(l1, words', u) == PageEntry(l1, words, u) {
      if u != PageNumber(v) { assert a.Entry(u) == old(a.Entry(u)); }
    }
    StillApart(l1, l1, k1, words, words', live);
  }

  lemma IsFrame(l1: seq<int>, words: map<int, int>, n: int, c: Block)
    requires |l1| == L1_ENTRIES && 0 <= n < VIRTUAL_PAGES && PageEntry(l1, words, n) != 0 && c == Block(Page, Frame(PageEntry(l1, words, n)))
    ensures FrameOf(l1, words, c)
  {
  }
}
