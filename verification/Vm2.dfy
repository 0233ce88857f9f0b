/** Two-level page tables (src/kernel/src/vm/vm2.c) on top of the physical memory manager. The entry layouts are
    those of section 6.11.1 of the ARM1176JZF-S Technical Reference Manual. */
module Vm2 {
  import opened Common
  import opened SliceLists
  import opened Pmm
  import opened Arith
  import opened Mmu

  const KERNEL_VIRTUAL_OFFSET := 0x8000_0000
  const L1_ENTRIES := 0x1000
  const L2_ENTRIES := 0x100
  const VIRTUAL_PAGES := 0x10_0000

  // ----- Addresses and entries -----

  function PhysToVirt(a: int): int {
    (a + KERNEL_VIRTUAL_OFFSET) % ADDRESS_SPACE
  }

  function VirtToPhys(a: int): int {
    (a - KERNEL_VIRTUAL_OFFSET) % ADDRESS_SPACE
  }

  function L1Index(v: int): int {
    v / 0x10_0000
  }

  function L2Index(v: int): int {
    v / 0x1000 % 0x100
  }

  /** The virtual page an address lies in. */
  function PageNumber(v: int): int {
    v / 0x1000
  }

  function CoarseEntry(l2: int): int {
    1 + 1024 * (VirtToPhys(l2) / 1024)
  }

  predicate IsCoarse(e: int) {
    e % 4 == 1
  }

  /** `find_l2pt` */
  function FindL2(e: int): int {
    PhysToVirt(e / 1024 * 1024)
  }

  datatype Access = KernelRO | KernelRW | UserRO | UserRW | NoAccess

  datatype PagePermission = PagePermission(access: Access, executable: bool)

  function AccessBits(a: Access): int {
    match a case KernelRO => 1 case KernelRW => 1 case UserRO => 2 case UserRW => 3 case NoAccess => 0
  }

  function ExtendedBit(a: Access): int {
    if a == KernelRO then 1 else 0
  }

  function NotGlobalBit(a: Access): int {
    if a == KernelRO || a == KernelRW then 0 else 1
  }

  /** The small-page entry: type in bits 0-1, permissions in 4-5, extended in 9, not-global in 11, base in 12-31. */
  function SmallEntry(page: int, perms: PagePermission): int {
    (if perms.executable then 2 else 3) + 16 * AccessBits(perms.access) + 512 * ExtendedBit(perms.access)
      + 2048 * NotGlobalBit(perms.access) + 4096 * (VirtToPhys(page) / 4096)
  }

  /** The physical base a small-page entry names, as `vm2_free_page` turns it back into a kernel address:
      with VIRT2PHYS, although the address it starts from is already physical. */
  function FreedAddress(e: int): int {
    VirtToPhys(e / 4096 * 4096)
  }

  /** Where the kernel sees the frame a small-page entry names. */
  function Frame(e: int): int {
    PhysToVirt(e / 4096 * 4096)
  }

  /** Subtracting the kernel offset and adding it are the same thing in 32 bits. */
  lemma OffsetIsItsOwnInverse(a: int)
    ensures VirtToPhys(a) == PhysToVirt(a)
    ensures 0 <= a < ADDRESS_SPACE ==> PhysToVirt(VirtToPhys(a)) == a
  {
  }

  lemma CoarseRoundTrip(l2: int)
    requires 0 <= l2 < ADDRESS_SPACE && l2 % 1024 == 0
    ensures IsCoarse(CoarseEntry(l2)) && FindL2(CoarseEntry(l2)) == l2
  {
    var p := VirtToPhys(l2);
    assert p % 1024 == 0;
    hide VirtToPhys;
    assert CoarseEntry(l2) / 1024 * 1024 == p;
    OffsetIsItsOwnInverse(l2);
  }

  /** The frame, the executable bit and the access come back out of the entry. */
  lemma SmallRoundTrip(page: int, perms: PagePermission)
    requires 0 <= page < ADDRESS_SPACE && page % 4096 == 0
    ensures var e := SmallEntry(page, perms);
      && (e % 4 == 2 || e % 4 == 3) && (e % 4 == 2 <==> perms.executable)
      && e / 16 % 4 == AccessBits(perms.access) && e / 512 % 2 == ExtendedBit(perms.access)
      && Frame(e) == page && FreedAddress(e) == page
  {
    var p := VirtToPhys(page);
    assert p % 4096 == 0;
    EntryFields(if perms.executable then 2 else 3, AccessBits(perms.access), ExtendedBit(perms.access),
                NotGlobalBit(perms.access), p / 4096);
    OffsetIsItsOwnInverse(page);
    OffsetIsItsOwnInverse(p);
  }

  lemma EntryFields(t: int, ap: int, apx: int, ng: int, base: int)
    requires 0 <= t < 4 && 0 <= ap < 4 && 0 <= apx < 2 && 0 <= ng < 2
    ensures var e := t + 16 * ap + 512 * apx + 2048 * ng + 4096 * base;
      e % 4 == t && e / 16 % 4 == ap && e / 512 % 2 == apx && e / 4096 == base
  {
    var e := t + 16 * ap + 512 * apx + 2048 * ng + 4096 * base;
    DivModUnique(e, 4, 4 * ap + 128 * apx + 512 * ng + 1024 * base, t);
    DivModUnique(e, 16, ap + 32 * apx + 128 * ng + 256 * base, t);
    DivModUnique(e / 16, 4, 8 * apx + 32 * ng + 64 * base, ap);
    DivModUnique(e, 512, apx + 4 * ng + 8 * base, t + 16 * ap);
    DivModUnique(e / 512, 2, 2 * ng + 4 * base, apx);
    DivModUnique(e, 4096, base, t + 16 * ap + 512 * apx + 2048 * ng);
  }

  /** What a permission is meant to allow: a kernel page is the kernel's alone and global, a read-only user page can be written by the kernel. */
  function Grants(perms: PagePermission): Rights {
    match perms.access
    case KernelRO => Rights(true, false, false, false, perms.executable, true)
    case KernelRW => Rights(true, true, false, false, perms.executable, true)
    case UserRO => Rights(true, true, true, false, perms.executable, false)
    case UserRW => Rights(true, true, true, true, perms.executable, false)
    case NoAccess => Rights(false, false, false, false, perms.executable, false)
  }

  /** The processor reads the entry as what was meant. */
  lemma EntryGrants(page: int, perms: PagePermission)
    ensures var e := SmallEntry(page, perms);
      e % 4 >= 2 && RightsOf(e) == Grants(perms) && Plain(e) && e / 4096 * 4096 == VirtToPhys(page) / 4096 * 4096
  {
    hide VirtToPhys;
    var t, ap, apx, ng := if perms.executable then 2 else 3, AccessBits(perms.access), ExtendedBit(perms.access), NotGlobalBit(perms.access);
    EntryFields(t, ap, apx, ng, VirtToPhys(page) / 4096);
    EntryPlain(t, ap, apx, ng, VirtToPhys(page) / 4096);
  }

  lemma EntryPlain(t: int, ap: int, apx: int, ng: int, base: int)
    requires 0 <= t < 4 && 0 <= ap < 4 && 0 <= apx < 2 && 0 <= ng < 2
    ensures var e := t + 16 * ap + 512 * apx + 2048 * ng + 4096 * base;
      e % 2 == t % 2 && e / 2048 % 2 == ng && Plain(e)
  {
    var e := t + 16 * ap + 512 * apx + 2048 * ng + 4096 * base;
    DivModUnique(e, 2, t / 2 + 8 * ap + 256 * apx + 1024 * ng + 2048 * base, t % 2);
    Field(e, 2048, 2, base, ng, t + 16 * ap + 512 * apx);
    Field(e, 4, 2, 2 * ap + 64 * apx + 256 * ng + 512 * base, 0, t);
    Field(e, 8, 2, ap + 32 * apx + 128 * ng + 256 * base, 0, t);
    Field(e, 64, 8, apx + 4 * ng + 8 * base, 0, t + 16 * ap);
    Field(e, 1024, 2, ng + 2 * base, 0, t + 16 * ap + 512 * apx);
    hide Plain;
    PlainIs(e);
  }

  /** The field of `size` values that starts at the bit worth `low`. */
  lemma Field(e: int, low: int, size: int, above: int, value: int, below: int)
    requires low > 0 && 0 <= below < low && 0 <= value < size && e == low * (size * above + value) + below
    ensures e / low % size == value
  {
    DivModUnique(e, low, size * above + value, below);
    DivModUnique(size * above + value, size, above, value);
  }

  lemma PlainIs(e: int)
    requires e / 4 % 2 == 0 && e / 8 % 2 == 0 && e / 64 % 8 == 0 && e / 1024 % 2 == 0
    ensures Plain(e)
  {
  }

  /** Different permissions never give the same entry. */
  lemma PermissionsSeparate(page: int, a: PagePermission, b: PagePermission)
    requires SmallEntry(page, a) == SmallEntry(page, b)
    ensures a == b
  {
  }

  // ----- The tables as values -----

  /** The second-level entry of a virtual page, or 0 if its megabyte has no second-level table. */
  function PageEntry(l1: seq<int>, words: map<int, int>, page: int): int
    requires |l1| == L1_ENTRIES && 0 <= page < VIRTUAL_PAGES
  {
    var e := l1[page / L2_ENTRIES];
    if IsCoarse(e) then Word(words, FindL2(e) + 4 * (page % L2_ENTRIES)) else 0
  }

  /** The processor sees the entry of the page that an address lies in. */
  lemma TranslateIs(l1: seq<int>, words: map<int, int>, v: int)
    requires |l1| == L1_ENTRIES && 0 <= v < 0x1_0000_0000
    ensures var e := PageEntry(l1, words, v / 4096);
      Translate(l1, words, v) ==
        if l1[v / 0x10_0000] % 4 == 2 then Section
        else if e % 4 < 2 then Fault
        else To(e / 4096 * 4096 + v % 4096, RightsOf(e))
  {
    hide RightsOf, Word;
  }

  lemma TranslateMapped(l1: seq<int>, words: map<int, int>, v: int, page: int, perms: PagePermission)
    requires |l1| == L1_ENTRIES && 0 <= v < 0x1_0000_0000 && l1[v / 0x10_0000] % 4 == 1
    requires PageEntry(l1, words, v / 4096) == SmallEntry(page, perms) && 0 <= page < 0x1_0000_0000 && page % 4096 == 0
    ensures Translate(l1, words, v) == To((page + 0x8000_0000) % 0x1_0000_0000 + v % 4096, Grants(perms))
  {
    TranslateIs(l1, words, v);
    EntryGrants(page, perms);
    PhysicalPage(page);
    hide Translate, PageEntry, SmallEntry, RightsOf, Grants, Plain, VirtToPhys;
  }

  lemma PhysicalPage(page: int)
    requires 0 <= page < 0x1_0000_0000 && page % 4096 == 0
    ensures VirtToPhys(page) / 4096 * 4096 == VirtToPhys(page) == (page + 0x8000_0000) % 0x1_0000_0000
  {
    var p := VirtToPhys(page);
    assert p % 4096 == 0;
  }

  /** Translation after one page has been mapped: that page's addresses come to the frame, all others to what they did before. */
  lemma SeenAfterMap(l1: seq<int>, l1': seq<int>, words: map<int, int>, words': map<int, int>, v: int, page: int, perms: PagePermission)
    requires |l1| == |l1'| == L1_ENTRIES && 0 <= v < ADDRESS_SPACE && l1'[L1Index(v)] % 4 == 1 && l1[L1Index(v)] % 4 <= 1
    requires forall i :: 0 <= i < L1_ENTRIES && i != L1Index(v) ==> l1'[i] == l1[i]
    requires PageEntry(l1', words', PageNumber(v)) == SmallEntry(page, perms) && 0 <= page < 0x1_0000_0000 && page % 4096 == 0
    requires forall u :: 0 <= u < VIRTUAL_PAGES && u != PageNumber(v) ==> PageEntry(l1', words', u) == PageEntry(l1, words, u)
    ensures forall x :: 0 <= x < 0x1_0000_0000 ==>
      Translate(l1', words', x) ==
        if x / 4096 == v / 4096 then To((page + 0x8000_0000) % 0x1_0000_0000 + x % 4096, Grants(perms)) else Translate(l1, words, x)
  {
    hide Translate, PageEntry, SmallEntry, Grants;
    forall x | 0 <= x < 0x1_0000_0000
      ensures Translate(l1', words', x) ==
        if x / 4096 == v / 4096 then To((page + 0x8000_0000) % 0x1_0000_0000 + x % 4096, Grants(perms)) else Translate(l1, words, x)
    {
      SamePageSameSlot(x, v);
      if x / 4096 == v / 4096 {
        TranslateMapped(l1', words', x, page, perms);
      } else {
        TranslateSame(l1, l1', words, words', x);
      }
    }
  }

  lemma SamePageSameSlot(x: int, v: int)
    requires 0 <= x < 0x1_0000_0000 && 0 <= v < 0x1_0000_0000
    ensures x / 4096 == v / 4096 ==> x / 0x10_0000 == v / 0x10_0000
  {
    DivDiv(x);
    DivDiv(v);
  }

  lemma DivDiv(x: int)
    requires x >= 0
    ensures x / 0x10_0000 == x / 4096 / 256
  {
  }

  /** An address whose entries have not changed, except perhaps from an empty first-level slot to an empty table. */
  lemma TranslateSame(l1: seq<int>, l1': seq<int>, words: map<int, int>, words': map<int, int>, x: int)
    requires |l1| == |l1'| == L1_ENTRIES && 0 <= x < 0x1_0000_0000
    requires var i := x / 0x10_0000; l1'[i] == l1[i] || (l1'[i] % 4 <= 1 && l1[i] % 4 <= 1)
    requires PageEntry(l1', words', x / 4096) == PageEntry(l1, words, x / 4096)
    ensures Translate(l1', words', x) == Translate(l1, words, x)
  {
    hide Translate, PageEntry, RightsOf;
    TranslateIs(l1, words, x);
    TranslateIs(l1', words', x);
  }

  lemma SeenAfterUnmap(l1: seq<int>, words: map<int, int>, words': map<int, int>, v: int)
    requires |l1| == L1_ENTRIES && 0 <= v < ADDRESS_SPACE && PageEntry(l1, words', PageNumber(v)) == 0
    requires forall u :: 0 <= u < VIRTUAL_PAGES && u != PageNumber(v) ==> PageEntry(l1, words', u) == PageEntry(l1, words, u)
    ensures forall x :: 0 <= x < 0x1_0000_0000 ==>
      Translate(l1, words', x) ==
        if x / 4096 == v / 4096 && l1[x / 0x10_0000] % 4 != 2 then Translation.Fault else Translate(l1, words, x)
  {
    hide Translate, PageEntry, RightsOf;
    forall x | 0 <= x < 0x1_0000_0000
      ensures Translate(l1, words', x) ==
        if x / 4096 == v / 4096 && l1[x / 0x10_0000] % 4 != 2 then Translation.Fault else Translate(l1, words, x)
    {
      TranslateIs(l1, words, x);
      TranslateIs(l1, words', x);
    }
  }

  /** Every second-level table is a live L2 block of its own, every mapped page names a live page block of its own. */
  ghost predicate TablesOk(l1: seq<int>, words: map<int, int>, live: iset<Block>) {
    && |l1| == L1_ENTRIES
    && (forall i :: 0 <= i < L1_ENTRIES && IsCoarse(l1[i]) ==> Block(L2PageTable, FindL2(l1[i])) in live)
    && (forall i, k :: 0 <= i < k < L1_ENTRIES && IsCoarse(l1[i]) && IsCoarse(l1[k]) ==> FindL2(l1[i]) != FindL2(l1[k]))
    && (forall v :: 0 <= v < VIRTUAL_PAGES && PageEntry(l1, words, v) != 0 ==>
         PageEntry(l1, words, v) % 4 >= 2 && Block(Page, Frame(PageEntry(l1, words, v))) in live)
    && (forall v, u :: 0 <= v < u < VIRTUAL_PAGES && PageEntry(l1, words, v) != 0 && PageEntry(l1, words, u) != 0 ==>
         Frame(PageEntry(l1, words, v)) != Frame(PageEntry(l1, words, u)))
  }

  /** The blocks handed out do not overlap. */
  ghost predicate Separate(live: iset<Block>) {
    forall b, c :: b in live && c in live && b != c ==> Disjoint(b, c)
  }

  /** The block has the words it had. */
  ghost predicate SameWords(words: map<int, int>, words': map<int, int>, b: Block) {
    forall x :: b.addr <= x < b.addr + Size(b.kind) ==> Word(words', x) == Word(words, x)
  }

  /** A block zeroed on allocation overlaps no live block. */
  lemma ZeroedElsewhere(words: map<int, int>, live: iset<Block>, b: Block)
    requires Separate(live + iset{b}) && b !in live
    ensures forall c :: c in live ==> SameWords(words, Zeroed(words, b.addr, Size(b.kind)), c)
  {
    hide Zeroed, Word;
    forall c, x | c in live && c.addr <= x < c.addr + Size(c.kind)
      ensures Word(Zeroed(words, b.addr, Size(b.kind)), x) == Word(words, x)
    {
      assert Disjoint(c, b);
      ZeroedWord(words, b.addr, Size(b.kind), x);
    }
  }

  /** A second-level entry lies in its table, and in no other live block. */
  lemma EntryElsewhere(words: map<int, int>, live: iset<Block>, l2: int, i: int, e: int)
    requires Separate(live) && Block(L2PageTable, l2) in live && 0 <= i < L2_ENTRIES
    ensures forall c :: c in live && c != Block(L2PageTable, l2) ==> SameWords(words, words[l2 + 4 * i := e], c)
  {
    forall c | c in live && c != Block(L2PageTable, l2) ensures SameWords(words, words[l2 + 4 * i := e], c) {
      assert Disjoint(c, Block(L2PageTable, l2));
    }
  }

  lemma SameWordsSelf(words: map<int, int>)
    ensures forall b :: SameWords(words, words, b)
  {
  }

  lemma TableIsLive(l1: seq<int>, words: map<int, int>, live: iset<Block>, i: int)
    requires TablesOk(l1, words, live) && 0 <= i < L1_ENTRIES && IsCoarse(l1[i])
    ensures Block(L2PageTable, FindL2(l1[i])) in live
  {
  }

  lemma SameWordsTwice(w0: map<int, int>, w1: map<int, int>, w2: map<int, int>, b: Block)
    requires SameWords(w0, w1, b) && SameWords(w1, w2, b)
    ensures SameWords(w0, w2, b)
  {
  }

  lemma ZeroedWord(words: map<int, int>, a: int, len: int, w: int)
    ensures Word(Zeroed(words, a, len), w) == if a <= w < a + len then 0 else Word(words, w)
  {
  }

  /** Zeroing a fresh block leaves every mapping as it was. */
  lemma FreshBlock(l1: seq<int>, words: map<int, int>, live: iset<Block>, b: Block, v: int)
    requires TablesOk(l1, words, live) && b !in live && Separate(live + iset{b}) && 0 <= v < VIRTUAL_PAGES
    ensures PageEntry(l1, Zeroed(words, b.addr, Size(b.kind)), v) == PageEntry(l1, words, v)
  {
  }

  lemma FreshBlockTables(l1: seq<int>, words: map<int, int>, live: iset<Block>, b: Block)
    requires TablesOk(l1, words, live) && b !in live && Separate(live + iset{b})
    ensures TablesOk(l1, Zeroed(words, b.addr, Size(b.kind)), live + iset{b})
    ensures forall v :: 0 <= v < VIRTUAL_PAGES && PageEntry(l1, words, v) != 0 ==> Block(Page, Frame(PageEntry(l1, words, v))) != b
  {
    hide PageEntry, Frame, FindL2;
    var words' := Zeroed(words, b.addr, Size(b.kind));
    forall v | 0 <= v < VIRTUAL_PAGES
      ensures PageEntry(l1, words', v) == PageEntry(l1, words, v)
    {
      FreshBlock(l1, words, live, b, v);
    }
  }

  /** Hooking a zeroed second-level table into an empty first-level slot maps nothing. */
  lemma HookTable(l1: seq<int>, words: map<int, int>, live: iset<Block>, i: int, l2: int)
    requires TablesOk(l1, words, live) && 0 <= i < L1_ENTRIES && !IsCoarse(l1[i])
    requires Block(L2PageTable, l2) in live && 0 <= l2 < ADDRESS_SPACE && l2 % 1024 == 0
    requires forall k :: 0 <= k < L1_ENTRIES && IsCoarse(l1[k]) ==> FindL2(l1[k]) != l2
    requires forall w :: l2 <= w < l2 + 1024 ==> Word(words, w) == 0
    ensures TablesOk(l1[i := CoarseEntry(l2)], words, live)
    ensures forall v :: 0 <= v < VIRTUAL_PAGES ==> PageEntry(l1[i := CoarseEntry(l2)], words, v) == PageEntry(l1, words, v)
  {
    CoarseRoundTrip(l2);
    var l1' := l1[i := CoarseEntry(l2)];
    forall v | 0 <= v < VIRTUAL_PAGES ensures PageEntry(l1', words, v) == PageEntry(l1, words, v) {
      hide TablesOk;
      HookKeepsEntry(l1, words, i, l2, v);
    }
    assert forall k :: 0 <= k < L1_ENTRIES ==> l1'[k] == if k == i then CoarseEntry(l2) else l1[k];
    hide PageEntry, Frame, FindL2, CoarseEntry, IsCoarse;
  }

  lemma HookKeepsEntry(l1: seq<int>, words: map<int, int>, i: int, l2: int, v: int)
    requires |l1| == L1_ENTRIES && 0 <= i < L1_ENTRIES && !IsCoarse(l1[i]) && 0 <= v < VIRTUAL_PAGES
    requires 0 <= l2 < ADDRESS_SPACE && l2 % 1024 == 0
    requires forall w :: l2 <= w < l2 + 1024 ==> Word(words, w) == 0
    ensures PageEntry(l1[i := CoarseEntry(l2)], words, v) == PageEntry(l1, words, v)
  {
    CoarseRoundTrip(l2);
    hide FindL2, CoarseEntry, IsCoarse;
  }

  /** Writing one second-level entry changes the mapping of that page alone. */
  lemma WriteEntry(l1: seq<int>, words: map<int, int>, live: iset<Block>, v: int, e: int, u: int)
    requires TablesOk(l1, words, live) && Separate(live) && 0 <= v < VIRTUAL_PAGES && 0 <= u < VIRTUAL_PAGES
    requires IsCoarse(l1[v / L2_ENTRIES])
    ensures var a := FindL2(l1[v / L2_ENTRIES]) + 4 * (v % L2_ENTRIES);
      PageEntry(l1, words[a := e], u) == if u == v then e else PageEntry(l1, words, u)
  {
  }

  /** Mapping a live page that no other virtual page maps keeps the tables sound. */
  lemma MapEntry(l1: seq<int>, words: map<int, int>, live: iset<Block>, v: int, e: int)
    requires TablesOk(l1, words, live) && Separate(live) && 0 <= v < VIRTUAL_PAGES && IsCoarse(l1[v / L2_ENTRIES])
    requires e % 4 >= 2 && Block(Page, Frame(e)) in live
    requires forall u :: 0 <= u < VIRTUAL_PAGES && PageEntry(l1, words, u) != 0 ==> Frame(PageEntry(l1, words, u)) != Frame(e)
    ensures var words' := words[FindL2(l1[v / L2_ENTRIES]) + 4 * (v % L2_ENTRIES) := e];
      && TablesOk(l1, words', live)
      && forall u :: 0 <= u < VIRTUAL_PAGES ==> PageEntry(l1, words', u) == if u == v then e else PageEntry(l1, words, u)
  {
    hide PageEntry, Frame, FindL2;
    var words' := words[FindL2(l1[v / L2_ENTRIES]) + 4 * (v % L2_ENTRIES) := e];
    forall u | 0 <= u < VIRTUAL_PAGES
      ensures PageEntry(l1, words', u) == if u == v then e else PageEntry(l1, words, u)
    {
      WriteEntry(l1, words, live, v, e, u);
    }
  }

  /** Unmapping a page and giving its frame back keeps the tables sound. */
  lemma UnmapEntry(l1: seq<int>, words: map<int, int>, live: iset<Block>, v: int)
    requires TablesOk(l1, words, live) && Separate(live) && 0 <= v < VIRTUAL_PAGES && PageEntry(l1, words, v) != 0
    ensures var words' := words[FindL2(l1[v / L2_ENTRIES]) + 4 * (v % L2_ENTRIES) := 0];
      && TablesOk(l1, words', live - iset{Block(Page, Frame(PageEntry(l1, words, v)))})
      && forall u :: 0 <= u < VIRTUAL_PAGES ==> PageEntry(l1, words', u) == if u == v then 0 else PageEntry(l1, words, u)
  {
    assert IsCoarse(l1[v / L2_ENTRIES]);
    hide PageEntry, Frame, FindL2;
    var words' := words[FindL2(l1[v / L2_ENTRIES]) + 4 * (v % L2_ENTRIES) := 0];
    forall u | 0 <= u < VIRTUAL_PAGES
      ensures PageEntry(l1, words', u) == if u == v then 0 else PageEntry(l1, words, u)
    {
      WriteEntry(l1, words, live, v, 0, u);
    }
  }

  // ----- Where live blocks are -----

  ghost function LiveSet(pmm: Manager): iset<Block>
    requires pmm.Valid()
    reads pmm
  {
    iset b: Block | pmm.Live(b)
  }

  lemma LiveSetSeparate(pmm: Manager)
    requires pmm.Valid()
    ensures Separate(LiveSet(pmm))
  {
    hide Layout.Holds, Lists, Layout.Live;
    forall b, c | b in LiveSet(pmm) && c in LiveSet(pmm) && b != c
      ensures Disjoint(b, c)
    {
      LiveBlocksDisjoint(pmm.L(), pmm.infos, pmm.owner, b, c);
    }
  }

  lemma RegionOf(pmm: Manager)
    requires pmm.Valid()
    ensures pmm.L().Region()
  {
  }

  /** Live blocks are aligned to their size, so that entries can name them. */
  lemma LiveAligned(pmm: Manager, b: Block)
    requires pmm.Valid() && pmm.Live(b)
    ensures 0 < b.addr && b.addr + Size(b.kind) <= ADDRESS_SPACE && b.addr % Size(b.kind) == 0
  {
    hide Layout.Holds, Lists, Layout.Live, Agrees, HasBit, InfoAddr;
    RegionOf(pmm);
    LiveRecord(pmm.L(), pmm.infos, pmm.owner, b);
    var j := SliceOf(pmm.start, b.addr);
    var off := b.addr - (pmm.start + SLICE_SIZE * j);
    AlignedPart(pmm.start, j, pmm.n, b.kind, off / Size(b.kind));
  }

  lemma AlignedPart(start: int, j: int, n: nat, kind: MemoryType, i: int)
    requires 0 < start && start % SLICE_SIZE == 0 && start + SLICE_SIZE * n <= ADDRESS_SPACE && 0 <= j < n
    requires 0 <= i && Size(kind) * (i + 1) <= SLICE_SIZE
    ensures var a := start + SLICE_SIZE * j + Size(kind) * i;
      0 < a && a + Size(kind) <= ADDRESS_SPACE && a % Size(kind) == 0
  {
    var s := start / SLICE_SIZE;
    var a := start + SLICE_SIZE * j + Size(kind) * i;
    match kind
    case L2PageTable => DivModUnique(a, 1024, 8 * (s + j) + i, 0);
    case Page => DivModUnique(a, 4096, 2 * (s + j) + i, 0);
    case _ => DivModUnique(a, SLICE_SIZE, s + j + i, 0);
  }

  // ----- The operations -----

  datatype MapResult = Mapped(page: int) | NotMappable | Fatal

  /** One first-level table with 0x1000 entries, outside the memory the manager hands out. */
  class AddressSpace {
    const pmm: Manager
    const l1: array<int>

    /** A table with sections and empty slots only, as `vm2_start` leaves it. */
    constructor (pmm: Manager, l1: array<int>)
      requires pmm.Valid() && pmm.L().AllFindable() && l1.Length == L1_ENTRIES
      requires forall i :: 0 <= i < L1_ENTRIES ==> !IsCoarse(l1[i])
      ensures this.pmm == pmm && this.l1 == l1 && Valid()
      ensures forall u :: 0 <= u < VIRTUAL_PAGES ==> Entry(u) == 0
    {
      this.pmm, this.l1 := pmm, l1;
    }

    ghost predicate Valid()
      reads this, pmm, l1
    {
      l1.Length == L1_ENTRIES && pmm.Valid() && pmm.L().AllFindable() && TablesOk(l1[..], pmm.words, LiveSet(pmm))
    }

    ghost function Entry(page: int): int
      requires l1.Length == L1_ENTRIES && 0 <= page < VIRTUAL_PAGES
      reads this, pmm, l1
    {
      PageEntry(l1[..], pmm.words, page)
    }

    /** Where the processor finds the byte at a virtual address. */
    ghost function Seen(v: int): Translation
      requires l1.Length == L1_ENTRIES && 0 <= v < 0x1_0000_0000
      reads this, pmm, l1
    {
      Translate(l1[..], pmm.words, v)
    }

    /** The block is not the second-level table that the walk of `v` goes through. */
    ghost predicate OtherTable(v: int, b: Block)
      requires l1.Length == L1_ENTRIES && 0 <= v < ADDRESS_SPACE
      reads this, l1
    {
      IsCoarse(l1[L1Index(v)]) ==> b != Block(L2PageTable, FindL2(l1[L1Index(v)]))
    }

    /** How many unused slices mapping a page may take: one for a table, one for the page. */
    ghost predicate CanMap(v: int)
      requires l1.Length == L1_ENTRIES && 0 <= v < ADDRESS_SPACE
      reads this, pmm, l1
    {
      l1[L1Index(v)] % 4 <= 1 ==>
        |pmm.lists.unused| >= (if l1[L1Index(v)] % 4 == 0 && pmm.lists.l2Partial == [] then 1 else 0)
                              + (if pmm.lists.pagePartial == [] then 1 else 0)
    }

    /** Gives an empty first-level slot a second-level table: case 0 of `vm2_allocate_page`. */
    method AddTable(i: int)
      requires Valid() && 0 <= i < L1_ENTRIES && l1[i] % 4 == 0 && (pmm.lists.l2Partial != [] || pmm.lists.unused != [])
      modifies pmm, l1
      ensures Valid() && IsCoarse(l1[i])
      ensures forall k :: 0 <= k < L1_ENTRIES && k != i ==> l1[k] == old(l1[k])
      ensures forall u :: 0 <= u < VIRTUAL_PAGES ==> Entry(u) == old(Entry(u))
      ensures var table := Block(L2PageTable, FindL2(l1[i]));
        !old(pmm.Live(table)) && forall b :: pmm.Live(b) <==> old(pmm.Live(b)) || b == table
      ensures |pmm.lists.unused| == |old(pmm.lists.unused)| - (if old(pmm.lists.l2Partial) == [] then 1 else 0)
      ensures pmm.lists.pagePartial == old(pmm.lists.pagePartial)
      ensures forall b :: old(pmm.Live(b)) ==> SameWords(old(pmm.words), pmm.words, b)
    {
      hide SameWords, Layout.Holds, Lists, Layout.Live, TablesOk, Separate;
      hide Zeroed, Layout.AllFindable, Layout.Region, FindL2, PageEntry, CoarseEntry;
      var l2 := pmm.AllocateL2();
      LiveSetSeparate(pmm);
      ghost var b := Block(L2PageTable, l2);
      assert LiveSet(pmm) == old(LiveSet(pmm)) + iset{b};
      LiveAligned(pmm, b);
      CoarseRoundTrip(l2);
      FreshTable(old(l1[..]), old(pmm.words), old(LiveSet(pmm)), i, l2);
      ZeroedElsewhere(old(pmm.words), old(LiveSet(pmm)), b);
      l1[i] := CoarseEntry(l2);
      assert l1[..] == old(l1[..])[i := CoarseEntry(l2)];
    }

    /** `vm2_allocate_page`: maps a fresh page at virtual address `v`. */
    method MapPage(v: int, remap: bool, perms: PagePermission) returns (r: MapResult)
      requires Valid() && 0 <= v < ADDRESS_SPACE && CanMap(v)
      modifies pmm, l1
      ensures Valid()
      ensures r.NotMappable? <==> old(l1[L1Index(v)]) % 4 >= 2
      ensures r.Fatal? <==> !remap && old(Entry(PageNumber(v))) != 0
      ensures forall u :: 0 <= u < VIRTUAL_PAGES && (u != PageNumber(v) || !r.Mapped?) ==> Entry(u) == old(Entry(u))
      ensures forall i :: 0 <= i < L1_ENTRIES && (i != L1Index(v) || old(l1[i]) % 4 != 0) ==> l1[i] == old(l1[i])
      ensures r.Mapped? ==>
        && Entry(PageNumber(v)) == SmallEntry(r.page, perms) && Frame(Entry(PageNumber(v))) == r.page
        && pmm.Live(Block(Page, r.page)) && !old(pmm.Live(Block(Page, r.page)))
      ensures !r.Fatal? ==> forall x :: 0 <= x < 0x1_0000_0000 ==>
        Seen(x) == if r.Mapped? && x / 4096 == v / 4096 then To((r.page + 0x8000_0000) % 0x1_0000_0000 + x % 4096, Grants(perms)) else old(Seen(x))
      ensures r.NotMappable? ==> forall b :: pmm.Live(b) <==> old(pmm.Live(b))
      ensures r.Mapped? ==> forall b ::
        pmm.Live(b) <==>
          old(pmm.Live(b)) || b == Block(Page, r.page) || (old(l1[L1Index(v)]) % 4 == 0 && b == Block(L2PageTable, FindL2(l1[L1Index(v)])))
      ensures old(l1[L1Index(v)]) % 4 == 0 ==>
        var table := Block(L2PageTable, FindL2(l1[L1Index(v)]));
        IsCoarse(l1[L1Index(v)]) && !old(pmm.Live(table))
      ensures forall b :: old(pmm.Live(b)) && old(OtherTable(v, b)) ==> SameWords(old(pmm.words), pmm.words, b)
    {
      hide SameWords, Layout.Holds, Lists, Layout.Live, TablesOk, Separate, Zeroed;
      hide Layout.AllFindable, Layout.Region, FindL2, PageEntry, SmallEntry, Frame;
      var i := L1Index(v);
      assert i == PageNumber(v) / L2_ENTRIES && L2Index(v) == PageNumber(v) % L2_ENTRIES;
      if l1[i] % 4 >= 2 {
        NoEntry(l1[..], pmm.words, v);
        SameWordsSelf(pmm.words);
        return NotMappable;
      }
      if l1[i] % 4 == 0 {
        AddTable(i);
      } else {
        SameWordsSelf(pmm.words);
      }
      ghost var words := pmm.words;
      r := MapIntoTable(v, remap, perms);
      if r.Mapped? {
        LiveAligned(pmm, Block(Page, r.page));
        forall u | 0 <= u < VIRTUAL_PAGES && u != PageNumber(v)
          ensures PageEntry(l1[..], pmm.words, u) == PageEntry(old(l1[..]), old(pmm.words), u)
        {
          assert Entry(u) == old(Entry(u));
        }
        SeenAfterMap(old(l1[..]), l1[..], old(pmm.words), pmm.words, v, r.page, perms);
      }
      forall b | old(pmm.Live(b)) && old(OtherTable(v, b)) ensures SameWords(old(pmm.words), pmm.words, b) {
        SameWordsTwice(old(pmm.words), words, pmm.words, b);
      }
    }

    /** `vm2_free_page`: unmaps the page `v` lies in and gives its frame back. */
    method UnmapPage(v: int)
      requires Valid() && 0 <= v < ADDRESS_SPACE
      requires IsCoarse(l1[L1Index(v)]) ==> Entry(PageNumber(v)) != 0
      modifies pmm
      ensures Valid() && Entry(PageNumber(v)) == 0
      ensures forall u :: 0 <= u < VIRTUAL_PAGES && u != PageNumber(v) ==> Entry(u) == old(Entry(u))
      ensures forall x :: 0 <= x < 0x1_0000_0000 ==>
        Seen(x) == if x / 4096 == v / 4096 && l1[x / 0x10_0000] % 4 != 2 then Translation.Fault else old(Seen(x))
      ensures old(Entry(PageNumber(v))) != 0 ==>
        forall b :: pmm.Live(b) <==> old(pmm.Live(b)) && b != Block(Page, Frame(old(Entry(PageNumber(v)))))
      ensures old(Entry(PageNumber(v))) == 0 ==> forall b :: pmm.Live(b) <==> old(pmm.Live(b))
      ensures forall b :: old(pmm.Live(b)) && OtherTable(v, b) ==> SameWords(old(pmm.words), pmm.words, b)
    {
      hide SameWords, Layout.Holds, Lists, Layout.Live, TablesOk, Separate, Layout.AllFindable;
      hide Layout.Region, FindL2, PageEntry, Frame, FreedAddress, Layout.Findable, Translate;
      if l1[L1Index(v)] % 4 == 1 {
        var a := FindL2(l1[L1Index(v)]) + 4 * L2Index(v);
        EntryAt(l1[..], pmm.words, v);
        var e := Word(pmm.words, a);
        LiveSetSeparate(pmm);
        MappedIsLive(l1[..], pmm.words, LiveSet(pmm), PageNumber(v));
        UnmapEntry(l1[..], pmm.words, LiveSet(pmm), PageNumber(v));
        FreedIsFrame(e);
        LiveFindable(pmm.L(), pmm.infos, pmm.owner, Block(Page, FreedAddress(e)));
        pmm.FreePart(Page, FreedAddress(e));
        TableIsLive(l1[..], old(pmm.words), old(LiveSet(pmm)), L1Index(v));
        EntryElsewhere(old(pmm.words), old(LiveSet(pmm)), FindL2(l1[L1Index(v)]), L2Index(v), 0);
        pmm.words := pmm.words[a := 0];
        forall c | old(pmm.Live(c)) && OtherTable(v, c) ensures SameWords(old(pmm.words), pmm.words, c) {
          assert c in old(LiveSet(pmm));
        }
        assert LiveSet(pmm) == old(LiveSet(pmm)) - iset{Block(Page, Frame(e))};
      } else {
        NoEntry(l1[..], pmm.words, v);
        SameWordsSelf(pmm.words);
      }
      SeenAfterUnmap(l1[..], old(pmm.words), pmm.words, v);
    }

    /** Case 1 of `vm2_allocate_page`: there is a second-level table. */
    method MapIntoTable(v: int, remap: bool, perms: PagePermission) returns (r: MapResult)
      requires Valid() && 0 <= v < ADDRESS_SPACE && IsCoarse(l1[L1Index(v)])
      requires pmm.lists.pagePartial != [] || pmm.lists.unused != []
      modifies pmm
      ensures Valid() && !r.NotMappable?
      ensures r.Fatal? <==> !remap && old(Entry(PageNumber(v))) != 0
      ensures forall u :: 0 <= u < VIRTUAL_PAGES && (u != PageNumber(v) || r.Fatal?) ==> Entry(u) == old(Entry(u))
      ensures r.Mapped? ==>
        && Entry(PageNumber(v)) == SmallEntry(r.page, perms) && Frame(Entry(PageNumber(v))) == r.page
        && pmm.Live(Block(Page, r.page)) && !old(pmm.Live(Block(Page, r.page)))
      ensures r.Mapped? ==> forall b :: pmm.Live(b) <==> old(pmm.Live(b)) || b == Block(Page, r.page)
      ensures forall b :: old(pmm.Live(b)) && OtherTable(v, b) ==> SameWords(old(pmm.words), pmm.words, b)
    {
      hide SameWords, Layout.Holds, Lists, Layout.Live, TablesOk, Separate, Zeroed;
      hide Layout.AllFindable, Layout.Region, FindL2, PageEntry, SmallEntry, Frame;
      ghost var n := PageNumber(v);
      var page := pmm.AllocatePage();
      LiveSetSeparate(pmm);
      ghost var b := Block(Page, page);
      assert LiveSet(pmm) == old(LiveSet(pmm)) + iset{b};
      LiveAligned(pmm, b);
      SmallRoundTrip(page, perms);
      FreshPage(l1[..], old(pmm.words), old(LiveSet(pmm)), page);
      ZeroedElsewhere(old(pmm.words), old(LiveSet(pmm)), b);
      var a := FindL2(l1[L1Index(v)]) + 4 * L2Index(v);
      EntryAt(l1[..], pmm.words, v);
      if Word(pmm.words, a) != 0 && !remap {
        return Fatal;
      }
      ghost var zeroed := pmm.words;
      WriteMapping(v, page, perms);
      forall c | old(pmm.Live(c)) && OtherTable(v, c) ensures SameWords(old(pmm.words), pmm.words, c) {
        assert c in LiveSet(pmm);
        SameWordsTwice(old(pmm.words), zeroed, pmm.words, c);
      }
      r := Mapped(page);
    }

    /** The store of the second-level entry. */
    method WriteMapping(v: int, page: int, perms: PagePermission)
      requires Valid() && 0 <= v < ADDRESS_SPACE && IsCoarse(l1[L1Index(v)]) && pmm.Live(Block(Page, page))
      requires forall u :: 0 <= u < VIRTUAL_PAGES && PageEntry(l1[..], pmm.words, u) != 0 ==> Frame(PageEntry(l1[..], pmm.words, u)) != page
      modifies pmm`words
      ensures Valid() && LiveSet(pmm) == old(LiveSet(pmm)) && Entry(PageNumber(v)) == SmallEntry(page, perms)
      ensures Frame(SmallEntry(page, perms)) == page
      ensures forall u :: 0 <= u < VIRTUAL_PAGES && u != PageNumber(v) ==> Entry(u) == old(Entry(u))
      ensures forall b :: pmm.Live(b) && OtherTable(v, b) ==> SameWords(old(pmm.words), pmm.words, b)
    {
      hide SameWords, Layout.Holds, Lists, Layout.Live, TablesOk, Separate;
      hide Layout.AllFindable, Layout.Region, FindL2, PageEntry, SmallEntry, Frame;
      LiveSetSeparate(pmm);
      LiveAligned(pmm, Block(Page, page));
      SmallRoundTrip(page, perms);
      EntryAt(l1[..], pmm.words, v);
      ghost var words := pmm.words;
      var a := FindL2(l1[L1Index(v)]) + 4 * L2Index(v);
      MapEntry(l1[..], words, LiveSet(pmm), PageNumber(v), SmallEntry(page, perms));
      TableIsLive(l1[..], words, LiveSet(pmm), L1Index(v));
      EntryElsewhere(words, LiveSet(pmm), FindL2(l1[L1Index(v)]), L2Index(v), SmallEntry(page, perms));
      pmm.words := pmm.words[a := SmallEntry(page, perms)];
      assert LiveSet(pmm) == old(LiveSet(pmm));
      forall c | pmm.Live(c) && OtherTable(v, c) ensures SameWords(words, pmm.words, c) {
        assert c in old(LiveSet(pmm));
      }
    }

    /** Mapping a fresh page and unmapping it again restores every mapping, and leaves live what was live before, but for a second-level
        table if one had to be made. */
    method MapThenUnmap(v: int, perms: PagePermission) returns (r: MapResult)
      requires Valid() && 0 <= v < ADDRESS_SPACE && CanMap(v) && Entry(PageNumber(v)) == 0
      modifies pmm, l1
      ensures Valid() && forall u :: 0 <= u < VIRTUAL_PAGES ==> Entry(u) == old(Entry(u))
      ensures r.Mapped? ==> forall b ::
        pmm.Live(b) <==> old(pmm.Live(b)) || (old(l1[L1Index(v)]) % 4 == 0 && b == Block(L2PageTable, FindL2(l1[L1Index(v)])))
    {
      hide Layout.Holds, Lists, Layout.Live, TablesOk, PageEntry, SmallEntry, Frame, FindL2, Layout.AllFindable;
      r := MapPage(v, false, perms);
      if r.Mapped? {
        SmallEntryNonZero(r.page, perms);
        UnmapPage(v);
      }
    }
  }

  /** A second-level table fresh from the manager, hooked into an empty slot. */
  lemma FreshTable(l1: seq<int>, words: map<int, int>, live: iset<Block>, i: int, l2: int)
    requires TablesOk(l1, words, live) && 0 <= i < L1_ENTRIES && !IsCoarse(l1[i])
    requires Block(L2PageTable, l2) !in live && Separate(live + iset{Block(L2PageTable, l2)})
    requires 0 <= l2 < ADDRESS_SPACE && l2 % 1024 == 0
    ensures var l1', words' := l1[i := CoarseEntry(l2)], Zeroed(words, l2, 1024);
      && TablesOk(l1', words', live + iset{Block(L2PageTable, l2)})
      && forall v :: 0 <= v < VIRTUAL_PAGES ==> PageEntry(l1', words', v) == PageEntry(l1, words, v)
  {
    hide Zeroed, FindL2, CoarseEntry, IsCoarse, PageEntry, Frame;
    var b := Block(L2PageTable, l2);
    var words' := Zeroed(words, b.addr, Size(b.kind));
    FreshBlockTables(l1, words, live, b);
    forall v | 0 <= v < VIRTUAL_PAGES
      ensures PageEntry(l1, words', v) == PageEntry(l1, words, v)
    {
      FreshBlock(l1, words, live, b, v);
    }
    forall w | l2 <= w < l2 + 1024
      ensures Word(words', w) == 0
    {
      ZeroedWord(words, l2, 1024, w);
    }
    HookTable(l1, words', live + iset{b}, i, l2);
  }

  lemma FreshPage(l1: seq<int>, words: map<int, int>, live: iset<Block>, page: int)
    requires TablesOk(l1, words, live)
    requires Block(Page, page) !in live && Separate(live + iset{Block(Page, page)})
    ensures var words' := Zeroed(words, page, 4096);
      && TablesOk(l1, words', live + iset{Block(Page, page)})
      && (forall v :: 0 <= v < VIRTUAL_PAGES ==> PageEntry(l1, words', v) == PageEntry(l1, words, v))
      && (forall v :: 0 <= v < VIRTUAL_PAGES && PageEntry(l1, words', v) != 0 ==> Frame(PageEntry(l1, words', v)) != page)
  {
    hide Zeroed, FindL2, IsCoarse, PageEntry, Frame;
    var b := Block(Page, page);
    FreshBlockTables(l1, words, live, b);
    forall v | 0 <= v < VIRTUAL_PAGES
      ensures PageEntry(l1, Zeroed(words, page, 4096), v) == PageEntry(l1, words, v)
    {
      FreshBlock(l1, words, live, b, v);
    }
  }

  lemma EntryAt(l1: seq<int>, words: map<int, int>, v: int)
    requires |l1| == L1_ENTRIES && 0 <= v < ADDRESS_SPACE && IsCoarse(l1[L1Index(v)])
    ensures PageNumber(v) / L2_ENTRIES == L1Index(v) && PageNumber(v) % L2_ENTRIES == L2Index(v)
    ensures PageEntry(l1, words, PageNumber(v)) == Word(words, FindL2(l1[L1Index(v)]) + 4 * L2Index(v))
  {
  }

  lemma NoEntry(l1: seq<int>, words: map<int, int>, v: int)
    requires |l1| == L1_ENTRIES && 0 <= v < ADDRESS_SPACE && !IsCoarse(l1[L1Index(v)])
    ensures PageEntry(l1, words, PageNumber(v)) == 0
  {
  }

  lemma MappedIsLive(l1: seq<int>, words: map<int, int>, live: iset<Block>, page: int)
    requires TablesOk(l1, words, live) && 0 <= page < VIRTUAL_PAGES && PageEntry(l1, words, page) != 0
    ensures Block(Page, Frame(PageEntry(l1, words, page))) in live
  {
  }

  lemma FreedIsFrame(e: int)
    ensures FreedAddress(e) == Frame(e)
  {
  }

  /** No two mapped virtual pages share a frame, and no frame overlaps a second-level table. */
  lemma NoAliasing(l1: seq<int>, words: map<int, int>, live: iset<Block>)
    requires TablesOk(l1, words, live) && Separate(live)
    ensures forall u, w :: 0 <= u < w < VIRTUAL_PAGES && PageEntry(l1, words, u) != 0 && PageEntry(l1, words, w) != 0 ==>
      Disjoint(Block(Page, Frame(PageEntry(l1, words, u))), Block(Page, Frame(PageEntry(l1, words, w))))
    ensures forall u, i :: 0 <= u < VIRTUAL_PAGES && 0 <= i < L1_ENTRIES && PageEntry(l1, words, u) != 0 && IsCoarse(l1[i]) ==>
      Disjoint(Block(Page, Frame(PageEntry(l1, words, u))), Block(L2PageTable, FindL2(l1[i])))
  {
  }

  lemma SmallEntryNonZero(page: int, perms: PagePermission)
    ensures SmallEntry(page, perms) != 0
  {
  }

  /** How many unused slices there are, as far as two. */
  lemma UnusedCount(m: Infos, heads: PerList<int>, lists: PerList<seq<int>>, owner: map<int, Owner>)
    requires Lists(m, heads, lists, owner)
    ensures heads.unused == NULL <==> |lists.unused| == 0
    ensures heads.unused != NULL ==> heads.unused in m && (m[heads.unused].next == NULL <==> |lists.unused| == 1)
  {
    assert ListOk(m, heads, lists, owner, Unused);
    if |lists.unused| > 1 { assert lists.unused[1] != NULL; }
  }
}
