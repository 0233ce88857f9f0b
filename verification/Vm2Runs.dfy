/** Whole runs of maps, with or without remapping, and unmaps: the two-level walk is a finite map, and nothing leaks but the frames that
    remapping loses. */
module Vm2Runs {
  import opened Common
  import opened SliceLists
  import opened Pmm
  import opened Vm2
  import opened Mmu

  /** What a request did. */
  datatype Event = Mapped(page: int, frame: int, perms: PagePermission) | Unmapped(page: int) | Refused

  datatype Request = Map(v: int, remap: bool, perms: PagePermission) | Unmap(v: int)

  /** Virtual pages and their entries. */
  type Walk = map<int, int>

  ghost function Apply(w: Walk, e: Event): Walk {
    match e
    case Mapped(n, frame, perms) => w[n := SmallEntry(frame, perms)]
    case Unmapped(n) => w - {n}
    case Refused => w
  }

  ghost function After(events: seq<Event>): Walk {
    if events == [] then map[] else Apply(After(events[..|events| - 1]), events[|events| - 1])
  }

  datatype MappedPage = MappedPage(frame: int, perms: PagePermission)

  /** What the last request about a page that was not refused has left there. */
  ghost function LastMap(events: seq<Event>, page: int): Option<MappedPage> {
    if events == [] then None
    else
      match events[|events| - 1]
      case Mapped(n, frame, perms) => if n == page then Some(MappedPage(frame, perms)) else LastMap(events[..|events| - 1], page)
      case Unmapped(n) => if n == page then None else LastMap(events[..|events| - 1], page)
      case Refused => LastMap(events[..|events| - 1], page)
  }

  /** Where an address comes to: in a section, in the frame of the last map of its page with the rights then asked for, or nowhere. */
  ghost function Expected(events: seq<Event>, l1: seq<int>, x: int): Translation
    requires |l1| == L1_ENTRIES && 0 <= x < 0x1_0000_0000
  {
    if l1[x / 0x10_0000] % 4 == 2 then Section
    else
      match LastMap(events, x / 4096)
      case Some(p) => To((p.frame + 0x8000_0000) % 0x1_0000_0000 + x % 4096, Grants(p.perms))
      case None => Translation.Fault
  }

  /** The frames that remapping has replaced. They stay live: the source loses them. */
  ghost function Lost(events: seq<Event>): iset<Block> {
    if events == [] then iset{}
    else
      var before := events[..|events| - 1];
      Lost(before) + Replaced(After(before), events[|events| - 1])
  }

  ghost function Replaced(w: Walk, e: Event): iset<Block> {
    if e.Mapped? && e.page in w then iset{Block(Page, Frame(w[e.page]))} else iset{}
  }

  /** What happens on a request when the walk is `w` and the first-level table was `l1` at first: a map is refused exactly in a section,
      and an unmap exactly when the page is not mapped. */
  ghost predicate Allowed(r: Request, w: Walk, e: Event, l1: seq<int>)
    requires |l1| == L1_ENTRIES
  {
    match r
    case Map(v, remap, perms) =>
      0 <= v < ADDRESS_SPACE &&
      if l1[L1Index(v)] % 4 >= 2 then e == Event.Refused
      else
        && e.Mapped? && e.page == PageNumber(v) && e.perms == perms && (e.page in w ==> remap)
        && Block(Page, e.frame) !in Frames(w) && 0 <= e.frame < 0x1_0000_0000 && e.frame % 4096 == 0
    case Unmap(v) => e == if PageNumber(v) in w then Unmapped(PageNumber(v)) else Event.Refused
  }

  ghost function Frames(w: Walk): iset<Block> {
    iset n | n in w :: Block(Page, Frame(w[n]))
  }

  ghost function Tables(l1: seq<int>): iset<Block>
    requires |l1| == L1_ENTRIES
  {
    iset i | 0 <= i < L1_ENTRIES && IsCoarse(l1[i]) :: Block(L2PageTable, FindL2(l1[i]))
  }

  /** The tables in memory are the walk `w`. */
  ghost predicate Walks(l1: seq<int>, words: map<int, int>, w: Walk) {
    && |l1| == L1_ENTRIES
    && (forall n :: n in w ==> 0 <= n < VIRTUAL_PAGES && w[n] != 0)
    && (forall n :: 0 <= n < VIRTUAL_PAGES ==> PageEntry(l1, words, n) == if n in w then w[n] else 0)
  }

  /** Live are the blocks that were live at first, the second-level tables and the mapped frames, and nothing else. */
  ghost predicate NoLeak(l1: seq<int>, live: iset<Block>, base: iset<Block>, w: Walk)
    requires |l1| == L1_ENTRIES
  {
    live == base + Tables(l1) + Frames(w) && base !! Frames(w)
  }

  lemma TablesAdd(l1: seq<int>, l1': seq<int>, i: int)
    requires |l1| == |l1'| == L1_ENTRIES && 0 <= i < L1_ENTRIES && IsCoarse(l1'[i])
    requires forall k :: 0 <= k < L1_ENTRIES && (k != i || l1[i] % 4 != 0) ==> l1'[k] == l1[k]
    ensures Tables(l1') == Tables(l1) + if l1[i] % 4 == 0 then iset{Block(L2PageTable, FindL2(l1'[i]))} else iset{}
  {
    hide FindL2;
    forall b ensures b in Tables(l1') <==> b in Tables(l1) + if l1[i] % 4 == 0 then iset{Block(L2PageTable, FindL2(l1'[i]))} else iset{} {}
  }

  lemma FramesAdd(w: Walk, n: int, e: int)
    requires n !in w
    ensures Frames(w[n := e]) == Frames(w) + iset{Block(Page, Frame(e))}
  {
    hide Frame;
    var w' := w[n := e];
    assert forall k :: k in w ==> w'[k] == w[k];
    forall b ensures b in Frames(w') <==> b in Frames(w) + iset{Block(Page, Frame(e))} {
      if b == Block(Page, Frame(e)) { assert n in w' && w'[n] == e; }
    }
  }

  lemma FramesDrop(w: Walk, n: int)
    requires n in w && forall k :: k in w && k != n ==> Frame(w[k]) != Frame(w[n])
    ensures Frames(w - {n}) == Frames(w) - iset{Block(Page, Frame(w[n]))}
  {
    hide Frame;
    var w' := w - {n};
    assert forall k :: k in w' ==> w'[k] == w[k];
  }

  /** The address space shows the walk `w`, with `base` live besides, and has the sections it had at first. */
  ghost predicate InStep(s: AddressSpace, base: iset<Block>, w: Walk, l1: seq<int>)
    reads s, s.pmm, s.l1
  {
    && s.Valid() && Walks(s.l1[..], s.pmm.words, w) && NoLeak(s.l1[..], LiveSet(s.pmm), base, w)
    && |l1| == L1_ENTRIES && forall i :: 0 <= i < L1_ENTRIES ==> if l1[i] % 4 >= 2 then s.l1[i] == l1[i] else s.l1[i] % 4 <= 1
  }

  lemma MappedInStep(l1: seq<int>, l1': seq<int>, words: map<int, int>, words': map<int, int>, live: iset<Block>, live': iset<Block>,
                     base: iset<Block>, w: Walk, n: int, frame: int, perms: PagePermission)
    requires Walks(l1, words, w) && NoLeak(l1, live, base, w) && TablesOk(l1, words, live) && 0 <= n < VIRTUAL_PAGES
    requires |l1'| == L1_ENTRIES && PageEntry(l1', words', n) == SmallEntry(frame, perms) != 0 && Frame(SmallEntry(frame, perms)) == frame
    requires forall u :: 0 <= u < VIRTUAL_PAGES && u != n ==> PageEntry(l1', words', u) == PageEntry(l1, words, u)
    requires forall k :: 0 <= k < L1_ENTRIES && (k != n / L2_ENTRIES || l1[k] % 4 != 0) ==> l1'[k] == l1[k]
    requires Block(Page, frame) !in live
    requires var i := n / L2_ENTRIES;
      live' == live + iset{Block(Page, frame)} + if l1[i] % 4 == 0 then iset{Block(L2PageTable, FindL2(l1'[i]))} else iset{}
    ensures var e := Event.Mapped(n, frame, perms);
      Walks(l1', words', Apply(w, e)) && NoLeak(l1', live', base + Replaced(w, e), Apply(w, e)) && Block(Page, frame) !in Frames(w)
  {
    assert IsCoarse(l1'[n / L2_ENTRIES]);
    hide FindL2, SmallEntry, Frame, PageEntry, Tables, Frames, IsCoarse, TablesOk;
    WalksSet(l1, l1', words, words', w, n, SmallEntry(frame, perms));
    TablesAdd(l1, l1', n / L2_ENTRIES);
    FramesSet(l1, words, live, w, n, SmallEntry(frame, perms));
    hide Walks;
    var e := Event.Mapped(n, frame, perms);
    var t := if l1[n / L2_ENTRIES] % 4 == 0 then iset{Block(L2PageTable, FindL2(l1'[n / L2_ENTRIES]))} else iset{};
    Accounted(live, base, Tables(l1), t, Frames(w), Replaced(w, e), iset{Block(Page, frame)});
  }

  lemma WalksSet(l1: seq<int>, l1': seq<int>, words: map<int, int>, words': map<int, int>, w: Walk, n: int, e: int)
    requires Walks(l1, words, w) && 0 <= n < VIRTUAL_PAGES && |l1'| == L1_ENTRIES && PageEntry(l1', words', n) == e != 0
    requires forall u :: 0 <= u < VIRTUAL_PAGES && u != n ==> PageEntry(l1', words', u) == PageEntry(l1, words, u)
    ensures Walks(l1', words', w[n := e])
  {
    hide PageEntry;
  }

  /** The balance of a map: the new table and the new frame are live, the replaced frame is lost. */
  lemma Accounted(live: iset<Block>, base: iset<Block>, tables: iset<Block>, table: iset<Block>, frames: iset<Block>,
                  replaced: iset<Block>, frame: iset<Block>)
    requires live == base + tables + frames && base !! frames && replaced <= frames && frame !! live
    ensures live + frame + table == base + replaced + (tables + table) + (frames - replaced + frame)
    ensures base + replaced !! frames - replaced + frame
  {
  }

  /** Setting the entry of a page replaces its frame, if it had one. */
  lemma FramesSet(l1: seq<int>, words: map<int, int>, live: iset<Block>, w: Walk, n: int, e: int)
    requires Walks(l1, words, w) && TablesOk(l1, words, live)
    ensures n !in w ==> Frames(w[n := e]) == Frames(w) + iset{Block(Page, Frame(e))}
    ensures n in w ==> Block(Page, Frame(w[n])) in Frames(w)
    ensures n in w ==> Frames(w[n := e]) == Frames(w) - iset{Block(Page, Frame(w[n]))} + iset{Block(Page, Frame(e))}
  {
    hide FindL2, Frame, PageEntry, IsCoarse;
    if n in w {
      FramesApart(l1, words, live, w, n);
      FramesDrop(w, n);
      FrameListed(w, n);
      FramesAdd(w - {n}, n, e);
      assert (w - {n})[n := e] == w[n := e];
    } else {
      FramesAdd(w, n, e);
    }
  }

  /** No other page has the frame of page n. */
  lemma FramesApart(l1: seq<int>, words: map<int, int>, live: iset<Block>, w: Walk, n: int)
    requires Walks(l1, words, w) && TablesOk(l1, words, live) && n in w
    ensures forall k :: k in w && k != n ==> Frame(w[k]) != Frame(w[n])
  {
    hide FindL2, Frame, PageEntry, IsCoarse;
    forall k | k in w && k != n ensures Frame(w[k]) != Frame(w[n]) {
      assert PageEntry(l1, words, k) == w[k] && PageEntry(l1, words, n) == w[n];
    }
  }

  /** How a request ends: it is answered, it maps a mapped page without remapping, or the unused slices do not suffice. */
  datatype Outcome = Done | Fatality | Short

  /** Whether `vm2_allocate_page` finds the slices it needs. */
  method HasSlices(s: AddressSpace, v: int) returns (enough: bool)
    requires s.Valid() && 0 <= v < ADDRESS_SPACE
    ensures enough <==> s.CanMap(v)
  {
    hide Layout.Holds, Lists, Layout.Live, TablesOk, Layout.AllFindable;
    var pmm, e := s.pmm, s.l1[L1Index(v)];
    UnusedCount(pmm.infos, pmm.heads, pmm.lists, pmm.owner);
    HeadOf(pmm.infos, pmm.heads, pmm.lists, pmm.owner, L2Partial);
    HeadOf(pmm.infos, pmm.heads, pmm.lists, pmm.owner, PagePartial);
    var need := (if e % 4 == 0 && pmm.heads.l2Partial == NULL then 1 else 0) + (if pmm.heads.pagePartial == NULL then 1 else 0);
    enough := e % 4 >= 2 || need == 0 || (pmm.heads.unused != NULL && (need == 1 || pmm.infos[pmm.heads.unused].next != NULL));
  }

  /** A map is answered, or the run ends for one of two reasons. */
  method StepMap(s: AddressSpace, v: int, remap: bool, perms: PagePermission, ghost base: iset<Block>, ghost w: Walk, ghost l1: seq<int>)
    returns (outcome: Outcome, ghost e: Event)
    requires InStep(s, base, w, l1) && 0 <= v < ADDRESS_SPACE
    modifies s.pmm, s.l1
    ensures outcome == Done ==> InStep(s, base + Replaced(w, e), Apply(w, e), l1) && Allowed(Request.Map(v, remap, perms), w, e, l1)
    ensures outcome == Fatality ==> !remap && PageNumber(v) in w
    ensures outcome == Short ==> InStep(s, base, w, l1) && !s.CanMap(v)
  {
    hide Layout.Holds, Lists, Layout.Live, TablesOk, PageEntry, SmallEntry;
    hide Frame, FindL2, Layout.AllFindable, Tables, Frames, AddressSpace.CanMap, AddressSpace.Seen;
    outcome, e := Done, Event.Refused;
    var enough := HasSlices(s, v);
    if !enough { return Short, e; }
    ghost var live, old1, words := LiveSet(s.pmm), s.l1[..], s.pmm.words;
    var r := s.MapPage(v, remap, perms);
    forall u | 0 <= u < VIRTUAL_PAGES && (u != PageNumber(v) || !r.Mapped?)
      ensures PageEntry(s.l1[..], s.pmm.words, u) == PageEntry(old1, words, u)
    {
      assert s.Entry(u) == old(s.Entry(u));
    }
    match r
    case Mapped(page) =>
      SmallEntryNonZero(page, perms);
      LiveAligned(s.pmm, Block(Page, page));
      assert forall k :: 0 <= k < L1_ENTRIES && (k != L1Index(v) || old1[k] % 4 != 0) ==> s.l1[..][k] == old1[k];
      MapLive(s, live, old1, v, page);
      MappedInStep(old1, s.l1[..], words, s.pmm.words, live, LiveSet(s.pmm), base, w, PageNumber(v), page, perms);
      e := Event.Mapped(PageNumber(v), page, perms);
      SectionsStay(old1, s.l1[..], s.pmm.words, L1Index(v), PageNumber(v));
    case NotMappable =>
      assert LiveSet(s.pmm) == live;
      assert s.l1[..] == old1;
    case Fatal =>
      outcome := Fatality;
  }

  /** Only an empty slot has changed, to a second-level table. */
  lemma SectionsStay(l1: seq<int>, l1': seq<int>, words: map<int, int>, i: int, n: int)
    requires |l1| == |l1'| == L1_ENTRIES && 0 <= n < VIRTUAL_PAGES && i == n / L2_ENTRIES && PageEntry(l1', words, n) != 0
    requires forall k :: 0 <= k < L1_ENTRIES && (k != i || l1[k] % 4 != 0) ==> l1'[k] == l1[k]
    ensures forall k :: 0 <= k < L1_ENTRIES ==> if l1[k] % 4 >= 2 then l1'[k] == l1[k] else l1'[k] % 4 <= 1
    ensures l1[i] % 4 < 2
  {
  }

  /** The live blocks after a map, as a set. */
  lemma MapLive(s: AddressSpace, live: iset<Block>, l1: seq<int>, v: int, page: int)
    requires s.Valid() && |l1| == L1_ENTRIES && 0 <= v < ADDRESS_SPACE
    requires forall b :: s.pmm.Live(b) <==>
      b in live || b == Block(Page, page) || (l1[L1Index(v)] % 4 == 0 && b == Block(L2PageTable, FindL2(s.l1[L1Index(v)])))
    ensures PageNumber(v) / L2_ENTRIES == L1Index(v) && 0 <= PageNumber(v) < VIRTUAL_PAGES
    ensures LiveSet(s.pmm) == live + iset{Block(Page, page)}
              + if l1[L1Index(v)] % 4 == 0 then iset{Block(L2PageTable, FindL2(s.l1[L1Index(v)]))} else iset{}
  {
    hide FindL2;
  }

  lemma UnmappedInStep(l1: seq<int>, words: map<int, int>, words': map<int, int>, live: iset<Block>, live': iset<Block>,
                       base: iset<Block>, w: Walk, n: int)
    requires Walks(l1, words, w) && NoLeak(l1, live, base, w) && TablesOk(l1, words, live) && n in w
    requires forall u :: 0 <= u < VIRTUAL_PAGES ==> PageEntry(l1, words', u) == if u == n then 0 else PageEntry(l1, words, u)
    requires live' == live - iset{Block(Page, Frame(w[n]))}
    ensures Walks(l1, words', w - {n}) && NoLeak(l1, live', base, w - {n})
  {
    hide FindL2, Frame, PageEntry, IsCoarse, TablesOk;
    FramesApart(l1, words, live, w, n);
    FramesDrop(w, n);
    FrameListed(w, n);
    hide Tables, Frames;
    TablesHaveNoPage(l1, Frame(w[n]));
  }

  lemma FrameListed(w: Walk, n: int)
    requires n in w
    ensures Block(Page, Frame(w[n])) in Frames(w)
  {
  }

  lemma TablesHaveNoPage(l1: seq<int>, frame: int)
    requires |l1| == L1_ENTRIES
    ensures Block(Page, frame) !in Tables(l1)
  {
  }

  method StepUnmap(s: AddressSpace, v: int, ghost base: iset<Block>, ghost w: Walk, ghost l1: seq<int>) returns (ghost e: Event)
    requires InStep(s, base, w, l1) && 0 <= v < ADDRESS_SPACE
    modifies s.pmm
    ensures InStep(s, base, Apply(w, e), l1) && Allowed(Request.Unmap(v), w, e, l1) && Replaced(w, e) == iset{}
  {
    hide Layout.Holds, Lists, Layout.Live, TablesOk, PageEntry, Frame, FindL2, Layout.AllFindable, Tables, Frames;
    e := Event.Refused;
    ghost var n := PageNumber(v);
    assert 0 <= n < VIRTUAL_PAGES;
    if s.l1[L1Index(v)] % 4 == 1 {
      EntryAt(s.l1[..], s.pmm.words, v);
      if Word(s.pmm.words, FindL2(s.l1[L1Index(v)]) + 4 * L2Index(v)) != 0 {
        ghost var live := LiveSet(s.pmm);
        s.UnmapPage(v);
        assert LiveSet(s.pmm) == live - iset{Block(Page, Frame(w[n]))};
        forall u | 0 <= u < VIRTUAL_PAGES
          ensures PageEntry(s.l1[..], s.pmm.words, u) == if u == n then 0 else PageEntry(s.l1[..], old(s.pmm.words), u)
        {
          assert s.Entry(u) == if u == n then 0 else old(s.Entry(u));
        }
        UnmappedInStep(s.l1[..], old(s.pmm.words), s.pmm.words, live, LiveSet(s.pmm), base, w, n);
        e := Unmapped(n);
      }
    } else {
      NoEntry(s.l1[..], s.pmm.words, v);
    }
  }

  /** Each event is the one that its request has, given the walk before it. */
  ghost predicate Answers(requests: seq<Request>, events: seq<Event>, l1: seq<int>)
    requires |l1| == L1_ENTRIES
  {
    |events| <= |requests| && forall i :: 0 <= i < |events| ==> Allowed(requests[i], After(events[..i]), events[i], l1)
  }

  lemma AnswersMore(requests: seq<Request>, events: seq<Event>, e: Event, l1: seq<int>)
    requires |l1| == L1_ENTRIES && Answers(requests, events, l1) && |events| < |requests| && Allowed(requests[|events|], After(events), e, l1)
    ensures Answers(requests, events + [e], l1) && After(events + [e]) == Apply(After(events), e)
    ensures Lost(events + [e]) == Lost(events) + Replaced(After(events), e)
  {
    AfterMore(events, e);
    hide Allowed, Apply, After, Lost, Replaced;
    var more := events + [e];
    forall i | 0 <= i < |more| ensures Allowed(requests[i], After(more[..i]), more[i], l1) {
      assert more[..i] == events[..i];
      if i == |events| { assert events[..i] == events; }
    }
  }

  lemma AfterMore(events: seq<Event>, e: Event)
    ensures After(events + [e]) == Apply(After(events), e)
    ensures Lost(events + [e]) == Lost(events) + Replaced(After(events), e)
  {
    hide Apply, Replaced;
    assert (events + [e])[..|events|] == events;
  }

  /** Every run, up to a map of a mapped page or a shortage of slices: the walk is the finite map that the requests describe, and what is
      live is what was live at first, the second-level tables, exactly one frame for each mapped page, and the frames that remapping
      has lost. No two pages share a frame, and no frame hits a table. */
  method Run(s: AddressSpace, requests: seq<Request>) returns (outcome: Outcome, ghost events: seq<Event>)
    requires s.Valid() && (forall i :: 0 <= i < L1_ENTRIES ==> !IsCoarse(s.l1[i])) && forall r :: r in requests ==> 0 <= r.v < ADDRESS_SPACE
    modifies s.pmm, s.l1
    ensures Answers(requests, events, old(s.l1[..]))
    ensures outcome == Done ==> |events| == |requests|
    ensures outcome != Done ==> |events| < |requests| && requests[|events|].Map?
    ensures outcome == Fatality ==> !requests[|events|].remap && PageNumber(requests[|events|].v) in After(events)
    ensures outcome == Short ==> s.l1.Length == L1_ENTRIES && !s.CanMap(requests[|events|].v)
    ensures outcome != Fatality ==> InStep(s, old(LiveSet(s.pmm)) + Lost(events), After(events), old(s.l1[..]))
    ensures outcome != Fatality ==> Separated(s.l1[..], s.pmm.words)
    ensures outcome != Fatality ==> forall x :: 0 <= x < 0x1_0000_0000 ==> s.Seen(x) == Expected(events, old(s.l1[..]), x)
  {
    hide Layout.Holds, Lists, Layout.Live, TablesOk, PageEntry, FindL2, Layout.AllFindable, Tables, Frames, Walks, NoLeak, Allowed, Apply;
    hide Lost, Replaced, Separated, AddressSpace.CanMap, AddressSpace.Valid, AddressSpace.Seen, Expected, After, InStep, Answers;
    ValidMeans(s);
    ghost var base, l1 := LiveSet(s.pmm), s.l1[..];
    Begin(s, base);
    outcome, events := Done, [];
    NoneAnswered(requests, l1);
    for i := 0 to |requests|
      invariant outcome == Done && |events| == i && Answers(requests, events, l1) && InStep(s, base + Lost(events), After(events), l1)
    {
      ghost var e;
      outcome, e := Step(s, requests[i], base + Lost(events), After(events), l1);
      if outcome == Short {
        Apart(s, base + Lost(events), After(events), l1);
        SeenAsExpected(s, requests, events, base + Lost(events), l1);
      }
      if outcome != Done { return; }
      AnswersMore(requests, events, e, l1);
      assert base + Lost(events) + Replaced(After(events), e) == base + Lost(events + [e]);
      events := events + [e];
    }
    Apart(s, base + Lost(events), After(events), l1);
    SeenAsExpected(s, requests, events, base + Lost(events), l1);
  }

  /** The entry of page `n` in the walk is that of `last`, or there is none. */
  ghost predicate EntryOf(last: Option<MappedPage>, w: Walk, l1: seq<int>, n: int)
    requires |l1| == L1_ENTRIES && 0 <= n < VIRTUAL_PAGES
  {
    match last
    case None => n !in w
    case Some(p) =>
      n in w && w[n] == SmallEntry(p.frame, p.perms) && 0 <= p.frame < 0x1_0000_0000 && p.frame % 4096 == 0 && l1[n / L2_ENTRIES] % 4 <= 1
  }

  lemma {:induction false} LastMapIs(requests: seq<Request>, events: seq<Event>, l1: seq<int>, n: int)
    requires |l1| == L1_ENTRIES && Answers(requests, events, l1) && 0 <= n < VIRTUAL_PAGES
    ensures EntryOf(LastMap(events, n), After(events), l1, n)
  {
    if events != [] {
      var before, e := events[..|events| - 1], events[|events| - 1];
      AnswersBefore(requests, events, l1);
      LastMapIs(requests, before, l1, n);
      LastMapStep(requests[|before|], After(before), e, l1, n, LastMap(before, n));
      hide EntryOf, Allowed, Apply, Answers;
    }
  }

  lemma AnswersBefore(requests: seq<Request>, events: seq<Event>, l1: seq<int>)
    requires |l1| == L1_ENTRIES && Answers(requests, events, l1) && events != []
    ensures var n := |events| - 1; n < |requests| && Answers(requests, events[..n], l1) && Allowed(requests[n], After(events[..n]), events[n], l1)
  {
    hide Allowed, After;
    var before := events[..|events| - 1];
    assert forall i :: 0 <= i < |before| ==> before[..i] == events[..i];
  }

  lemma LastMapStep(r: Request, w: Walk, e: Event, l1: seq<int>, n: int, last: Option<MappedPage>)
    requires |l1| == L1_ENTRIES && 0 <= n < VIRTUAL_PAGES && Allowed(r, w, e, l1) && EntryOf(last, w, l1, n)
    ensures var now :=
              match e
              case Mapped(page, frame, perms) => if n == page then Some(MappedPage(frame, perms)) else last
              case Unmapped(page) => if n == page then None else last
              case Refused => last;
            EntryOf(now, Apply(w, e), l1, n)
  {
    hide SmallEntry, Frames;
  }

  lemma SeenAsExpected(s: AddressSpace, requests: seq<Request>, events: seq<Event>, base: iset<Block>, l1: seq<int>)
    requires InStep(s, base, After(events), l1) && |l1| == L1_ENTRIES && Answers(requests, events, l1)
    ensures forall x :: 0 <= x < 0x1_0000_0000 ==> s.Seen(x) == Expected(events, l1, x)
  {
    hide AddressSpace.Valid, NoLeak, Answers, Translate, PageEntry, SmallEntry, RightsOf, Grants, After;
    forall x | 0 <= x < 0x1_0000_0000 ensures s.Seen(x) == Expected(events, l1, x) {
      var n := x / 4096;
      assert n / L2_ENTRIES == x / 0x10_0000;
      LastMapIs(requests, events, l1, n);
      TranslateIs(s.l1[..], s.pmm.words, x);
      match LastMap(events, n) {
        case Some(p) => MappedTo(s.l1[..], s.pmm.words, x, p.frame, p.perms);
        case None =>
      }
    }
  }

  lemma MappedTo(l1: seq<int>, words: map<int, int>, x: int, frame: int, perms: PagePermission)
    requires |l1| == L1_ENTRIES && 0 <= x < 0x1_0000_0000 && PageEntry(l1, words, x / 4096) == SmallEntry(frame, perms)
    requires 0 <= frame < 0x1_0000_0000 && frame % 4096 == 0
    ensures Translate(l1, words, x) == To((frame + 0x8000_0000) % 0x1_0000_0000 + x % 4096, Grants(perms))
  {
    SmallEntryNonZero(frame, perms);
    assert l1[x / 0x10_0000] % 4 == 1;
    TranslateMapped(l1, words, x, frame, perms);
  }

  method Step(s: AddressSpace, r: Request, ghost base: iset<Block>, ghost w: Walk, ghost l1: seq<int>)
    returns (outcome: Outcome, ghost e: Event)
    requires InStep(s, base, w, l1) && 0 <= r.v < ADDRESS_SPACE
    modifies s.pmm, s.l1
    ensures outcome == Done ==> |l1| == L1_ENTRIES && InStep(s, base + Replaced(w, e), Apply(w, e), l1) && Allowed(r, w, e, l1)
    ensures outcome != Done ==> r.Map?
    ensures outcome == Fatality ==> !r.remap && PageNumber(r.v) in w
    ensures outcome == Short ==> InStep(s, base, w, l1) && s.l1.Length == L1_ENTRIES && !s.CanMap(r.v)
  {
    hide AddressSpace.Valid, AddressSpace.CanMap, Walks, NoLeak, Allowed, Apply, Replaced;
    ValidMeans(s);
    match r
    case Map(v, remap, perms) =>
      outcome, e := StepMap(s, v, remap, perms, base, w, l1);
    case Unmap(v) =>
      e := StepUnmap(s, v, base, w, l1);
      outcome := Done;
      assert base + iset{} == base;
  }

  lemma ValidMeans(s: AddressSpace)
    requires s.Valid()
    ensures s.l1.Length == L1_ENTRIES && s.pmm.Valid()
  {
  }

  lemma NoneAnswered(requests: seq<Request>, l1: seq<int>)
    requires |l1| == L1_ENTRIES
    ensures Answers(requests, [], l1) && After([]) == map[] && Lost([]) == iset{}
  {
  }

  /** No two mapped pages share a frame, and no frame overlaps a second-level table. */
  ghost predicate Separated(l1: seq<int>, words: map<int, int>) {
    && |l1| == L1_ENTRIES
    && (forall u, w :: 0 <= u < w < VIRTUAL_PAGES && PageEntry(l1, words, u) != 0 && PageEntry(l1, words, w) != 0 ==>
          Disjoint(Block(Page, Frame(PageEntry(l1, words, u))), Block(Page, Frame(PageEntry(l1, words, w)))))
    && (forall u, i :: 0 <= u < VIRTUAL_PAGES && 0 <= i < L1_ENTRIES && PageEntry(l1, words, u) != 0 && IsCoarse(l1[i]) ==>
          Disjoint(Block(Page, Frame(PageEntry(l1, words, u))), Block(L2PageTable, FindL2(l1[i]))))
  }

  lemma Apart(s: AddressSpace, base: iset<Block>, w: Walk, l1: seq<int>)
    requires InStep(s, base, w, l1)
    ensures Separated(s.l1[..], s.pmm.words)
  {
    hide Layout.Holds, Lists, Layout.Live, PageEntry, FindL2, Frame, IsCoarse, Disjoint, Layout.AllFindable, Separate;
    LiveSetSeparate(s.pmm);
    NoAliasing(s.l1[..], s.pmm.words, LiveSet(s.pmm));
  }

  lemma Begin(s: AddressSpace, base: iset<Block>)
    requires s.Valid() && base == LiveSet(s.pmm) && forall i :: 0 <= i < L1_ENTRIES ==> !IsCoarse(s.l1[i])
    ensures InStep(s, base + Lost([]), map[], s.l1[..])
  {
    hide Layout.Holds, Lists, Layout.Live, TablesOk, FindL2, Layout.AllFindable;
    assert base + Lost([]) == base;
  }
}
